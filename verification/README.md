# Police Donut Chase and the ball game, in Dafny

This project models the game logic of two small pygame programs.

**Police Donut Chase** (`police_donut_game.py`) is a maze game.
- A fixed 15 × 20 grid of path and wall cells becomes a list of wall rectangles.
- A police officer moves through the maze. A move is dropped as a whole when the player's box would overlap a wall (boxes that only share an edge do not overlap), and the position is then clamped to the screen.
- A donut appears in a random path cell once more than 3 seconds have passed since the last one.
- A donut whose box the officer's box overlaps scores one point.
- A donut left on screen for more than 5 seconds goes away and counts as missed. After three misses the game is over, and R restarts it.

**The ball game** (`ball_game.py`) has a paddle that moves 8 pixels a frame under the arrow keys.
- Each frame in which the ball's bottom is at or below the paddle's top and its centre is over the paddle scores one point. The test does not require the ball to be falling, so one contact can score in several frames.
- A ball that falls past the bottom edge ends the game, and R restarts it.
- The background is a checkerboard of light and dark grass squares.

The project has five modules:
- `Geometry`: rectangles, the strict overlap test used for every collision, and clamping.
- `Maze`: the grid and the wall-rectangle construction loop. It also holds the placement of a box inside a cell and the rejection-sampling loop that picks a path cell from a supply of random draws.
- `DonutRules`: one frame of the donut game stated on values (a `Frame` record). It covers the move, the spawn, the scan of the donut list, the pruning and the game-over test. The properties of a frame are proved here.
- `DonutGame`: the `Player`, `Donut` and `Game` objects, updated in place as the program updates them. Each method's contract ties the new state to the rules of `DonutRules`. `Game.Update` is proved to perform exactly `Tick` on the game's state, and to keep the game invariant `Valid`.
- `BallGame`: the paddle step and its invariant, the hit and game-over tests, the tile colour rule, and the game object with its restart and update.

Clock readings, random draws and the ball's position after its floating-point flight are parameters of the operations that use them.

Two points of the code are easy to misread:
- The ball game's paddle is not clamped to the screen. Its moves are guarded instead (move left only while `paddle_x > 0`, move right only while `paddle_x < 700`). So the paddle ranges from -2 to 702 (`BallGame.ExtremesReached`), not from 0 to 700.
- The ball game's frame update assigns the capped speed to `current_speed`, never to `current_ball_speed`. The model's `currentBallSpeed` therefore changes only on restart.

## Model

| member | source | states |
|---|---|---|
| Geometry.Overlaps | police_donut_game.py:99 | the strict overlap test of two boxes (a definition without ensures); its properties are stated by `Geometry.OverlapsSymmetric` and `Geometry.EdgeContactIsNoOverlap` |
| Geometry.OverlapsSymmetric | police_donut_game.py:163 | the overlap test gives the same answer whichever box comes first |
| Geometry.EdgeContactIsNoOverlap | police_donut_game.py:99 | a box overlaps itself exactly when it has positive width and height; two boxes of any sizes that meet along an edge, on the left, right, top or bottom, do not overlap, such as the player flush against a wall cell or a donut |
| Geometry.HitsWall | police_donut_game.py:98-102 | some wall rectangle overlaps the box, the outcome of the wall loop (a definition without ensures); `DonutRules.MoveTo`, `DonutGame.Player.Move` and `Maze.WithinPathMissesWalls` state how it decides a move |
| Geometry.Clamp | police_donut_game.py:105-106 | `max(lo, min(v, hi))` lies in `[lo, hi]`: it is `v` when `v` is in range, `lo` below it and `hi` above it |
| Maze.GridIsRectangular | police_donut_game.py:37-53 | the maze has 15 rows of 20 cells each |
| Maze.CellRect | police_donut_game.py:60 | the 40 × 40 screen rectangle of a cell (a definition without ensures); `Maze.BoxInCell` and `Maze.WithinPathMissesWalls` state what lies inside it |
| Maze.GridWalls | police_donut_game.py:56-60 | the row-major list of wall rectangles (a definition without ensures); its properties are stated by `Maze.GridWallsMembers`, `Maze.GridWallsDistinct` and `Maze.GridWallsAreWallRects` |
| Maze.GridWallsMembers | police_donut_game.py:56-60 | a rectangle is in the row-major wall list exactly when it is the rectangle of some wall cell |
| Maze.GridWallsDistinct | police_donut_game.py:56-60 | the wall list is in strict row-major order, so no rectangle appears twice |
| Maze.GridWallsAreWallRects | police_donut_game.py:56-60 | the row-major wall list holds one rectangle per wall cell and nothing else |
| Maze.BuildWallRects | police_donut_game.py:56-60 | the nested construction loop yields exactly the wall cells' rectangles, in row-major order |
| Maze.CellOffset | police_donut_game.py:76-77 | the pixel at which an object of a given side is centred in a cell (a definition without ensures); `Maze.BoxInCell` states that the box lies in its cell and `DonutRules.SpawnExample` gives a value |
| Maze.BoxInCell | police_donut_game.py:76-77 | a box of side at most CELL_SIZE placed at `col * 40 + (40 - size) // 2` lies inside its cell and has that side |
| Maze.WithinPathMissesWalls | police_donut_game.py:75-77 | a box inside a path cell collides with no wall rectangle |
| Maze.PlayerDraw | police_donut_game.py:73-74 | the cells the player's draw can give, the grid without its border ring (a definition without ensures); `Maze.BorderPathCell` states a path cell it excludes |
| Maze.DonutDraw | police_donut_game.py:126-127 | the cells a donut's draw can give, the whole grid (a definition without ensures); `Maze.BorderPathCell` states a path cell it includes |
| Maze.SampleCell | police_donut_game.py:72-78 | the rejection loop stops at the first path cell drawn: every earlier draw is a wall cell |
| Maze.BorderPathCell | police_donut_game.py:73-74 | cell (0, 7) is a path cell that a donut can be drawn in but the player never is, because the player's draw excludes the border ring |
| DonutRules.Stepped | police_donut_game.py:84-92 | each held key moves the player by PLAYER_SPEED on its own axis; a single held key on an axis moves exactly 4 pixels that way (left and up subtract, right and down add); opposite keys cancel |
| DonutRules.MoveTo | police_donut_game.py:80-106 | the result is on screen; a stepped box that hits a wall leaves the player where it was, clamped to the screen; a clear step is taken and then clamped to the screen, so a clear, on-screen step is taken as is |
| DonutRules.ClampedAxisOverlap | police_donut_game.py:105-106 | clamping a coordinate that strayed at most PLAYER_SPEED off screen creates no new overlap with a maze cell on that axis |
| DonutRules.ClampedHitWasHit | police_donut_game.py:98-106 | a box at most PLAYER_SPEED off screen that hits a maze wall after the clamp already hit one before it |
| DonutRules.MoveKeepsClear | police_donut_game.py:80-106 | a player on screen and clear of every wall of a 15 × 20 maze stays clear of them after any move, clamping included |
| DonutRules.MazeMoveKeepsClear | police_donut_game.py:80-106 | the same for the game's own maze and wall list |
| DonutRules.SpawnPickup | police_donut_game.py:123-134 | a new donut is active, stamped with the spawn time, and lies inside its cell |
| DonutRules.TimedOut | police_donut_game.py:154 | the timeout test, strictly more than DONUT_APPEAR_TIME seconds (a definition without ensures); `DonutRules.TimeoutIsStrict` states its boundary |
| DonutRules.Caught | police_donut_game.py:159-163 | the collision test of the player's box and the donut's box (a definition without ensures); `DonutRules.CollectionBeatsTimeout` and `DonutRules.TickOutcome` state how it decides the frame |
| DonutRules.Scan | police_donut_game.py:210-216 | the donut loop on values (a definition without ensures); `DonutRules.ScanConserves`, `DonutRules.PruneScanIsSurvivors` and `DonutGame.Game.CheckDonuts` state what it does |
| DonutRules.Visit | police_donut_game.py:211-216 | one pass of the loop body on values: an active donut that is caught, or else timed out, goes inactive (a definition without ensures); `DonutGame.Donut.Check` and `DonutRules.CollectionBeatsTimeout` state its outcome |
| DonutRules.ScanConserves | police_donut_game.py:210-216 | after the scan, the donuts collected plus the donuts missed plus those still active equal the active donuts before it |
| DonutRules.Prune | police_donut_game.py:219 | the pruned list holds only active donuts, as many as there were active ones; a donut is in it exactly when it is an active donut of the input |
| DonutRules.PruneAppend | police_donut_game.py:219 | pruning a joined list joins the pruned pieces, so the kept donuts keep their order |
| DonutRules.PruneScanIsSurvivors | police_donut_game.py:210-219 | scanning and then pruning keeps exactly the donuts that were active, not caught and not timed out, unchanged and in order |
| DonutRules.SpawnDue | police_donut_game.py:205 | strictly more than DONUT_SPAWN_RATE seconds since the last spawn (a definition without ensures); `DonutRules.Tick` and `DonutGame.Game.SpawnIfDue` state its effect on the timer and the list |
| DonutRules.WithSpawn | police_donut_game.py:205-206 | the list with the new donut appended when a spawn is due (a definition without ensures); `DonutRules.Tick` and `DonutGame.Game.SpawnIfDue` state what it adds |
| DonutRules.MoveStep | police_donut_game.py:200-207 | the move and the spawn on values (a definition without ensures); `DonutGame.Game.MoveAndSpawn` is proved to perform it and `DonutRules.Tick` states its effects |
| DonutRules.ScanStep | police_donut_game.py:209-223 | the scan, the pruning and the game-over test on values (a definition without ensures); `DonutGame.Game.ScanAndPrune` is proved to perform it and `DonutRules.Tick` states its effects |
| DonutRules.Tick | police_donut_game.py:198-223 | a frame once the game is over changes nothing; otherwise the player ends on screen, the list stays all active, score and misses never drop, at most one donut is added, the spawn timer restarts exactly when a spawn was due, and the game is over exactly when it was already or three donuts are missed |
| DonutRules.TickKeepsSound | police_donut_game.py:198-223 | a frame keeps the state sound: counters non-negative, the game over exactly at three misses, every listed donut active, the player on screen and clear of every wall |
| DonutRules.StartFrame | police_donut_game.py:172-178 | the restarted player is on screen, centred in the drawn cell |
| DonutRules.TickConservesDonuts | police_donut_game.py:203-219 | every donut that leaves the list in a frame was either collected or missed |
| DonutRules.TickOutcome | police_donut_game.py:209-219 | the score gained is the number of active donuts whose boxes the moved player's box overlaps; the misses added are the active ones it does not overlap that timed out; the donuts left are the survivors |
| DonutRules.CollectionBeatsTimeout | police_donut_game.py:211-216 | a donut that is caught in the frame it times out scores and is not counted as missed |
| DonutRules.TimeoutIsStrict | police_donut_game.py:153-157 | a donut exactly DONUT_APPEAR_TIME seconds old has not timed out |
| DonutRules.SpawnExample | police_donut_game.py:129-130 | a donut in cell (1, 1) sits at pixel (50, 50) |
| DonutRules.FlushAgainstWall | police_donut_game.py:99 | a player whose box meets a 40-pixel wall cell along its edge does not collide with it, and one pixel further in it does |
| DonutGame.Player.constructor | police_donut_game.py:63-68 | a new player has score 0 and is on screen, centred in the cell drawn for it |
| DonutGame.Player.FindValidPosition | police_donut_game.py:70-78 | the player's box is the box of side PLAYER_SIZE centred in the drawn cell, and it is on screen |
| DonutGame.Player.Move | police_donut_game.py:80-106 | the new position is the one `MoveTo` gives: the loop over the walls finds a collision exactly when one exists |
| DonutGame.Donut.constructor | police_donut_game.py:119-121 | a new donut is the value `SpawnPickup` gives for its cell and time |
| DonutGame.Donut.Spawn | police_donut_game.py:123-134 | the donut is centred in its cell, stamped with the current time and active |
| DonutGame.Donut.CheckTimeout | police_donut_game.py:153-157 | the result is true exactly when more than DONUT_APPEAR_TIME has passed, and a true result deactivates the donut |
| DonutGame.Donut.CheckCollision | police_donut_game.py:159-163 | the result is the collision of the player's box with the donut's box |
| DonutGame.Donut.Check | police_donut_game.py:211-216 | one pass of the loop body: the donut becomes `Visit` of its old value; it is caught exactly when it was active and overlapped by the player's box, and expired exactly when it was active, not overlapped and timed out |
| DonutGame.ActiveDonuts | police_donut_game.py:219 | every donut object kept was in the list; `DonutGame.ActiveDonutsValues` states that exactly the active ones are kept, in order |
| DonutGame.ActiveDonutsDistinct | police_donut_game.py:219 | filtering a list of distinct donut objects leaves them distinct |
| DonutGame.ActiveDonutsValues | police_donut_game.py:219 | filtering the objects by `active` filters their values the way `Prune` does |
| DonutGame.Game.constructor | police_donut_game.py:56-60 | at program start the wall list is the maze's, the state is the restart state set up at police_donut_game.py:181-185, and the invariant holds |
| DonutGame.Game.Reset | police_donut_game.py:172-178 | a new player, no donuts, nothing missed, the spawn timer at now, the game running; the invariant holds |
| DonutGame.Game.KeyDown | police_donut_game.py:194-196 | R restarts the game only while it is over; any other event leaves the state unchanged |
| DonutGame.Game.SpawnIfDue | police_donut_game.py:204-207 | a fresh donut joins the end of the list and the timer restarts exactly when more than DONUT_SPAWN_RATE seconds have passed; the list stays distinct |
| DonutGame.Game.MoveAndSpawn | police_donut_game.py:200-207 | the state afterwards is `MoveStep` of the state before |
| DonutGame.Game.CheckDonuts | police_donut_game.py:210-216 | the list's values become the scanned values; the score and the missed counter grow by the scan's collected and missed counts |
| DonutGame.Game.RemoveInactive | police_donut_game.py:219 | the list's values become `Prune` of the old values, and the objects stay distinct |
| DonutGame.Game.CheckGameOver | police_donut_game.py:222-223 | the game becomes over once MAX_MISSED_DONUTS are missed, and stays over |
| DonutGame.Game.ScanAndPrune | police_donut_game.py:209-223 | the state afterwards is `ScanStep` of the state before |
| DonutGame.Game.Update | police_donut_game.py:198-223 | the new state is `Tick` of the old one; the invariant (maze walls, distinct donut objects, and a sound state by `DonutRules.TickKeepsSound`) is kept; nothing changes once the game is over |
| BallGame.StartValues | ball_game.py:41-46 | the paddle starts at (350, 575) and the ball at (400, 300) |
| BallGame.PaddleStep | ball_game.py:89-92 | the paddle moves at most 8 pixels; it moves left exactly when left is held, it is right of 0 and the right step does not undo it; it moves right exactly when right is held, it is left of 700 and left did not move it |
| BallGame.StartIsOk | ball_game.py:41 | the start position satisfies the paddle invariant |
| BallGame.PaddleStepKeepsOk | ball_game.py:89-92 | a frame keeps the paddle strictly between -8 and 708 and congruent to 350 modulo 8 |
| BallGame.PaddleOkBounds | ball_game.py:89-92 | a paddle position satisfying the invariant lies between -2 and 702 |
| BallGame.Run | ball_game.py:89-92 | the paddle after a run of frames, one step per frame (a definition without ensures); `BallGame.RunKeepsOk`, `BallGame.HoldLeft`, `BallGame.HoldRight` and `BallGame.ExtremesReached` state where it ends |
| BallGame.RunKeepsOk | ball_game.py:86-92 | after any run of frames from a valid position the paddle is still valid and between -2 and 702 |
| BallGame.HoldLeft | ball_game.py:89-90 | holding left moves the paddle 8 pixels a frame while it is right of 0 |
| BallGame.HoldRight | ball_game.py:91-92 | holding right moves the paddle 8 pixels a frame while it is left of 700 |
| BallGame.ExtremesReached | ball_game.py:89-92 | 44 frames of left from the start reach -2 and 44 frames of right reach 702; at those positions the paddle stays |
| BallGame.PaddleHit | ball_game.py:115-116 | the hit test: the ball's bottom at or below the paddle's top and its centre between the paddle's ends, both inclusive (a definition without ensures); `BallGame.HitExamples` states its edges and `BallGame.Game.Update` scores by it |
| BallGame.BelowScreen | ball_game.py:136 | the game-over test, the ball's centre at or below the bottom edge (a definition without ensures); `BallGame.Game.Update` ends the game by it |
| BallGame.HitExamples | ball_game.py:115-116 | a ball centred on the paddle with its bottom on the paddle's top edge hits; a ball one pixel past either end misses |
| BallGame.TileIsLight | ball_game.py:37 | the colour rule of a background square (a definition without ensures); `BallGame.AdjacentTilesDiffer` and `BallGame.DiagonalTilesMatch` state the checkerboard |
| BallGame.AdjacentTilesDiffer | ball_game.py:35-37 | squares next to each other across or down have different colours |
| BallGame.DiagonalTilesMatch | ball_game.py:35-37 | squares one step apart diagonally have the same colour |
| BallGame.Game.constructor | ball_game.py:41-58 | program start is the restart state, and the paddle invariant holds |
| BallGame.Game.Reset | ball_game.py:61-73 | paddle at (350, 575), ball at (400, 300), speed 5, score 0, game running, clock restarted |
| BallGame.Game.KeyDown | ball_game.py:83-84 | R restarts the game only while it is over; otherwise nothing changes |
| BallGame.Game.Update | ball_game.py:86-137 | once over, nothing changes; otherwise the paddle takes `PaddleStep`, the ball moves to its new position, the score grows by one exactly on a hit against the moved paddle, the game ends exactly when the ball reaches the bottom edge, and the paddle invariant and row are kept |

## Left out

- Rendering is left out: drawing, fonts, the display, event polling, frame-rate capping, and the speed and game-over texts (police_donut_game.py:108-116, 136-151, 165-170, 225-252; ball_game.py:32-38 except the colour rule, 139-171).
- The ball's flight is floating-point vector arithmetic with `sqrt`, `sin`, `cos` and a random initial angle, so it is left out. This covers the speed ramp and renormalisation (ball_game.py:95-102), the wall reflection (109-112), the bounce angle (117-130) and the initial direction (48-50, 67-70). The ball's position after the flight is an input of `BallGame.Game.Update`, and `ball_dx`/`ball_dy` are not modelled.
- The clock is read once per frame in the model (`now`). The program reads `time.time()` again when a donut is created and in each `check_timeout`, moments later; these readings are folded into the frame's single `now`.
- Random draws come from outside the model. `Maze.SampleCell` takes the draws as a finite sequence. The constructors and `Reset` take the cell the rejection loop settled on, which must be a path cell in the drawable range.
- Maze.SampleCell: `while True` may in principle draw forever. The model only looks through the finite supply it is given and returns its length when no path cell is in it.
- The event loop itself, the QUIT event and the program exit are left out. `KeyDown` and `Update` are the per-frame steps the loop calls.
- DonutGame.Game.Update takes the cell for a donut spawned in this frame even when no spawn is due, and then ignores it.
- DonutGame.Game.KeyDown takes the cell for the restarted player on every key event, and uses it only when R restarts a finished game.
- Object sizes and speeds (`size`, `speed`) are constants of the classes rather than per-object fields, since the program never changes them.
