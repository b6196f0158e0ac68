/** The rules of one frame of Police Donut Chase, stated on values: the
    player's move against the maze walls, the spawning, collection and
    expiry of donuts, the pruning of the donut list and the game-over test.
    The objects of module DonutGame are proved to follow these rules. */
module DonutRules {
  import opened Geometry
  import opened Maze

  const SCREEN_WIDTH := 800
  const SCREEN_HEIGHT := 600
  const PLAYER_SIZE := 30
  const PLAYER_SPEED := 4
  const DONUT_SIZE := 20
  /** Seconds a donut stays on screen. */
  const DONUT_APPEAR_TIME: real := 5.0
  /** Seconds between donut spawns. */
  const DONUT_SPAWN_RATE: real := 3.0
  const MAX_MISSED_DONUTS := 3

  /** The largest coordinates the player's top-left corner may take. */
  const MAX_X := SCREEN_WIDTH - PLAYER_SIZE
  const MAX_Y := SCREEN_HEIGHT - PLAYER_SIZE

  /** Which arrow keys are held down in this frame. */
  datatype Keys = Keys(left: bool, right: bool, up: bool, down: bool)

  // ---------------------------------------------------------------------
  // Player movement

  function PlayerBox(x: int, y: int): Rect
  {
    Rect(x, y, PLAYER_SIZE, PLAYER_SIZE)
  }

  predicate OnScreen(x: int, y: int)
  {
    0 <= x <= MAX_X && 0 <= y <= MAX_Y
  }

  /** The position after each held key has moved the player by PLAYER_SPEED,
      each key on its own: opposite keys cancel, diagonals are allowed. */
  function Stepped(x: int, y: int, keys: Keys): (r: (int, int))
    ensures -PLAYER_SPEED <= r.0 - x <= PLAYER_SPEED && -PLAYER_SPEED <= r.1 - y <= PLAYER_SPEED
    ensures keys.left == keys.right ==> r.0 == x
    ensures keys.up == keys.down ==> r.1 == y
    ensures keys.left && !keys.right ==> r.0 == x - PLAYER_SPEED
    ensures keys.right && !keys.left ==> r.0 == x + PLAYER_SPEED
    ensures keys.up && !keys.down ==> r.1 == y - PLAYER_SPEED
    ensures keys.down && !keys.up ==> r.1 == y + PLAYER_SPEED
  {
    var x1 := if keys.left then x - PLAYER_SPEED else x;
    var x2 := if keys.right then x1 + PLAYER_SPEED else x1;
    var y1 := if keys.up then y - PLAYER_SPEED else y;
    var y2 := if keys.down then y1 + PLAYER_SPEED else y1;
    (x2, y2)
  }

  /** Player.move: the stepped position is dropped as a whole (both axes)
      when the player's box there collides with a wall, and the position
      kept is then clamped to the screen. */
  function MoveTo(x: int, y: int, keys: Keys, walls: seq<Rect>): (r: (int, int))
    ensures OnScreen(r.0, r.1)
    ensures var s := Stepped(x, y, keys);
            HitsWall(PlayerBox(s.0, s.1), walls) && OnScreen(x, y) ==> r == (x, y)
    ensures var s := Stepped(x, y, keys);
            HitsWall(PlayerBox(s.0, s.1), walls) ==> r == (Clamp(x, 0, MAX_X), Clamp(y, 0, MAX_Y))
    ensures var s := Stepped(x, y, keys);
            !HitsWall(PlayerBox(s.0, s.1), walls) && OnScreen(s.0, s.1) ==> r == s
    ensures var s := Stepped(x, y, keys);
            !HitsWall(PlayerBox(s.0, s.1), walls) ==> r == (Clamp(s.0, 0, MAX_X), Clamp(s.1, 0, MAX_Y))
  {
    var s := Stepped(x, y, keys);
    var kept := if HitsWall(PlayerBox(s.0, s.1), walls) then (x, y) else s;
    (Clamp(kept.0, 0, MAX_X), Clamp(kept.1, 0, MAX_Y))
  }

  /** Clamping one coordinate of a box that moved at most PLAYER_SPEED from
      the screen never makes it collide with a cell it did not already
      collide with on that axis. */
  lemma ClampedAxisOverlap(s: int, hi: int, k: int, n: int)
    requires hi + PLAYER_SIZE == n * CELL_SIZE && 0 <= k < n
    requires -PLAYER_SPEED <= s <= hi + PLAYER_SPEED
    requires Clamp(s, 0, hi) < k * CELL_SIZE + CELL_SIZE && k * CELL_SIZE < Clamp(s, 0, hi) + PLAYER_SIZE
    ensures s < k * CELL_SIZE + CELL_SIZE && k * CELL_SIZE < s + PLAYER_SIZE
  {
  }

  /** A player who starts on screen and clear of the walls of a ROWS x COLS
      maze is still clear of them after any move, clamping included. */
  lemma MoveKeepsClear(grid: seq<seq<int>>, walls: seq<Rect>, x: int, y: int, keys: Keys)
    requires Rectangular(grid) && OnlyWallCells(grid, walls)
    requires OnScreen(x, y) && !HitsWall(PlayerBox(x, y), walls)
    ensures var r := MoveTo(x, y, keys, walls);
            !HitsWall(PlayerBox(r.0, r.1), walls)
  {
    var s := Stepped(x, y, keys);
    if !HitsWall(PlayerBox(s.0, s.1), walls) {
      ClampedHitWasHit(grid, walls, s.0, s.1);
    }
  }

  /** A box at most PLAYER_SPEED off screen that collides with a wall of a
      ROWS x COLS maze once clamped to the screen already collided with one. */
  lemma ClampedHitWasHit(grid: seq<seq<int>>, walls: seq<Rect>, sx: int, sy: int)
    requires Rectangular(grid) && OnlyWallCells(grid, walls)
    requires -PLAYER_SPEED <= sx <= MAX_X + PLAYER_SPEED && -PLAYER_SPEED <= sy <= MAX_Y + PLAYER_SPEED
    ensures HitsWall(PlayerBox(Clamp(sx, 0, MAX_X), Clamp(sy, 0, MAX_Y)), walls) ==> HitsWall(PlayerBox(sx, sy), walls)
  {
    var box := PlayerBox(Clamp(sx, 0, MAX_X), Clamp(sy, 0, MAX_Y));
    if HitsWall(box, walls) {
      var i :| 0 <= i < |walls| && Overlaps(box, walls[i]);
      var d :| IsWall(grid, d) && walls[i] == CellRect(d);
      ClampedAxisOverlap(sx, MAX_X, d.col, COLS);
      ClampedAxisOverlap(sy, MAX_Y, d.row, ROWS);
      assert Overlaps(PlayerBox(sx, sy), walls[i]);
    }
  }

  /** MoveKeepsClear for the game's own maze and wall list. */
  lemma MazeMoveKeepsClear(walls: seq<Rect>, x: int, y: int, keys: Keys)
    requires WallRectsOf(GRID, walls)
    requires OnScreen(x, y) && !HitsWall(PlayerBox(x, y), walls)
    ensures var r := MoveTo(x, y, keys, walls);
            !HitsWall(PlayerBox(r.0, r.1), walls)
  {
    GridIsRectangular();
    MoveKeepsClear(GRID, walls, x, y, keys);
  }

  // ---------------------------------------------------------------------
  // Donuts

  /** A donut: its top-left corner, the time it appeared, and whether it is
      still on screen. */
  datatype Pickup = Pickup(x: int, y: int, spawnTime: real, active: bool)

  function PickupBox(p: Pickup): Rect
  {
    Rect(p.x, p.y, DONUT_SIZE, DONUT_SIZE)
  }

  /** Donut.spawn, given the cell the random draw settled on and the time. */
  function SpawnPickup(c: Cell, now: real): (p: Pickup)
    ensures p.active && p.spawnTime == now
    ensures Within(PickupBox(p), CellRect(c))
  {
    var b := BoxInCell(c, DONUT_SIZE);
    Pickup(b.x, b.y, now, true)
  }

  /** Donut.check_timeout's test: strictly more than DONUT_APPEAR_TIME has passed. */
  predicate TimedOut(p: Pickup, now: real)
  {
    now - p.spawnTime > DONUT_APPEAR_TIME
  }

  /** Donut.check_collision: the player's box collides with the donut's. */
  predicate Caught(p: Pickup, player: Rect)
  {
    Overlaps(player, PickupBox(p))
  }

  /** The donut after the scan has looked at it: an active donut that is
      caught, or else timed out, goes inactive; any other is left alone. */
  function Visit(p: Pickup, player: Rect, now: real): Pickup
  {
    if p.active && (Caught(p, player) || TimedOut(p, now)) then p.(active := false) else p
  }

  /** Number of active donuts. */
  function ActiveCount(ps: seq<Pickup>): (n: nat)
    ensures n <= |ps|
  {
    if ps == [] then 0 else ActiveCount(ps[..|ps| - 1]) + (if ps[|ps| - 1].active then 1 else 0)
  }

  /** Number of active donuts the player's box collides with. */
  function CaughtCount(ps: seq<Pickup>, player: Rect): nat
  {
    if ps == [] then 0
    else CaughtCount(ps[..|ps| - 1], player) +
         (var p := ps[|ps| - 1]; if p.active && Caught(p, player) then 1 else 0)
  }

  /** Number of active donuts that timed out without being caught. */
  function ExpiredCount(ps: seq<Pickup>, player: Rect, now: real): nat
  {
    if ps == [] then 0
    else ExpiredCount(ps[..|ps| - 1], player, now) +
         (var p := ps[|ps| - 1]; if p.active && !Caught(p, player) && TimedOut(p, now) then 1 else 0)
  }

  /** One more donut scanned adds its own outcome to the counts. */
  lemma CountsStep(ps: seq<Pickup>, i: int, player: Rect, now: real)
    requires 0 <= i < |ps|
    ensures CaughtCount(ps[..i + 1], player) ==
            CaughtCount(ps[..i], player) + (if ps[i].active && Caught(ps[i], player) then 1 else 0)
    ensures ExpiredCount(ps[..i + 1], player, now) ==
            ExpiredCount(ps[..i], player, now) +
            (if ps[i].active && !Caught(ps[i], player) && TimedOut(ps[i], now) then 1 else 0)
  {
    assert ps[..i + 1][..i] == ps[..i];
  }

  predicate AllActive(ps: seq<Pickup>)
  {
    forall i :: 0 <= i < |ps| ==> ps[i].active
  }

  lemma {:induction false} AllActiveCount(ps: seq<Pickup>)
    requires AllActive(ps)
    ensures ActiveCount(ps) == |ps|
  {
    if ps != [] {
      AllActiveCount(ps[..|ps| - 1]);
    }
  }

  /** The donut list after the scan, with what it added to the score and to
      the missed counter. */
  datatype Scanned = Scanned(pickups: seq<Pickup>, collected: nat, missed: nat)

  /** The donut loop of the update block: each active donut is first tested
      for collection (score + 1) and only if not caught for timeout
      (missed + 1); either way it goes inactive. */
  function Scan(ps: seq<Pickup>, player: Rect, now: real): Scanned
  {
    Scanned(seq(|ps|, i requires 0 <= i < |ps| => Visit(ps[i], player, now)),
            CaughtCount(ps, player), ExpiredCount(ps, player, now))
  }

  /** Every active donut the scan looks at is either collected, missed, or
      still active afterwards. */
  lemma {:induction false} ScanConserves(ps: seq<Pickup>, player: Rect, now: real)
    ensures var r := Scan(ps, player, now);
            r.collected + r.missed + ActiveCount(r.pickups) == ActiveCount(ps)
  {
    if ps != [] {
      var front := ps[..|ps| - 1];
      ScanConserves(front, player, now);
      assert Scan(ps, player, now).pickups[..|ps| - 1] == Scan(front, player, now).pickups;
    }
  }

  /** The pruning of the donut list: the active donuts, in their order. */
  function Prune(ps: seq<Pickup>): (r: seq<Pickup>)
    ensures AllActive(r)
    ensures |r| == ActiveCount(ps)
    ensures forall p {:trigger p in r} :: p in r <==> p in ps && p.active
  {
    if ps == [] then []
    else Prune(ps[..|ps| - 1]) + (if ps[|ps| - 1].active then [ps[|ps| - 1]] else [])
  }

  /** Pruning works piece by piece: pruning a joined list joins the pruned
      pieces, so the kept donuts stay in their order and each appears as
      often as it did. */
  lemma {:induction false} PruneAppend(a: seq<Pickup>, b: seq<Pickup>)
    ensures Prune(a + b) == Prune(a) + Prune(b)
    decreases |b|
  {
    if b == [] {
      assert a + b == a;
    } else {
      var front, last := b[..|b| - 1], b[|b| - 1];
      assert (a + b)[..|a + b| - 1] == a + front;
      assert (a + b)[|a + b| - 1] == last;
      PruneAppend(a, front);
    }
  }

  /** A donut survives a frame when it is active, not caught and not timed out. */
  predicate Stays(p: Pickup, player: Rect, now: real)
  {
    p.active && !Caught(p, player) && !TimedOut(p, now)
  }

  /** The donuts that survive, in order: a reference for scan-then-prune. */
  function Survivors(ps: seq<Pickup>, player: Rect, now: real): seq<Pickup>
  {
    if ps == [] then []
    else Survivors(ps[..|ps| - 1], player, now) +
         (if Stays(ps[|ps| - 1], player, now) then [ps[|ps| - 1]] else [])
  }

  /** Scanning and then pruning keeps exactly the surviving donuts, each one
      unchanged, in their original order. */
  lemma {:induction false} PruneScanIsSurvivors(ps: seq<Pickup>, player: Rect, now: real)
    ensures Prune(Scan(ps, player, now).pickups) == Survivors(ps, player, now)
  {
    if ps != [] {
      var front := ps[..|ps| - 1];
      var scanned := Scan(ps, player, now).pickups;
      PruneScanIsSurvivors(front, player, now);
      assert scanned[..|ps| - 1] == Scan(front, player, now).pickups;
    }
  }

  // ---------------------------------------------------------------------
  // One frame

  /** What one frame reads and writes: the player's position and score,
      the donut list, the missed counter, the last spawn time and the
      game-over flag. */
  datatype Frame = Frame(px: int, py: int, score: int, pickups: seq<Pickup>,
                         missed: int, lastSpawn: real, gameOver: bool)

  /** It is time to spawn a donut: strictly more than DONUT_SPAWN_RATE
      seconds since the last spawn. */
  predicate SpawnDue(lastSpawn: real, now: real)
  {
    now - lastSpawn > DONUT_SPAWN_RATE
  }

  /** The donut list the scan sees: the old list, plus the new donut when one is due. */
  function WithSpawn(g: Frame, cell: Cell, now: real): seq<Pickup>
  {
    if SpawnDue(g.lastSpawn, now) then g.pickups + [SpawnPickup(cell, now)] else g.pickups
  }

  /** The first half of a frame: the player moves, and a donut placed in
      `cell` joins the end of the list when one is due. */
  function MoveStep(g: Frame, keys: Keys, walls: seq<Rect>, cell: Cell, now: real): Frame
  {
    var pos := MoveTo(g.px, g.py, keys, walls);
    g.(px := pos.0, py := pos.1, pickups := WithSpawn(g, cell, now),
       lastSpawn := if SpawnDue(g.lastSpawn, now) then now else g.lastSpawn)
  }

  /** The second half of a frame: scan the donuts against the player where
      it now stands, keep the active ones, and end the game once
      MAX_MISSED_DONUTS have been missed. */
  function ScanStep(g: Frame, now: real): Frame
  {
    var scanned := Scan(g.pickups, PlayerBox(g.px, g.py), now);
    var missed := g.missed + scanned.missed;
    g.(score := g.score + scanned.collected, pickups := Prune(scanned.pickups),
       missed := missed, gameOver := g.gameOver || missed >= MAX_MISSED_DONUTS)
  }

  /** The `if not game_over:` block of the main loop: move the player, spawn
      a donut when due, scan the donuts, prune, and test for game over.
      `cell` is where a donut spawned in this frame goes. */
  function Tick(g: Frame, keys: Keys, walls: seq<Rect>, cell: Cell, now: real): (r: Frame)
    ensures g.gameOver ==> r == g
    ensures !g.gameOver ==> OnScreen(r.px, r.py)
    ensures AllActive(g.pickups) ==> AllActive(r.pickups)
    ensures r.score >= g.score && r.missed >= g.missed
    ensures |r.pickups| <= |g.pickups| + 1
    ensures r.lastSpawn == if !g.gameOver && SpawnDue(g.lastSpawn, now) then now else g.lastSpawn
    ensures r.gameOver <==> g.gameOver || r.missed >= MAX_MISSED_DONUTS
  {
    if g.gameOver then g else ScanStep(MoveStep(g, keys, walls, cell, now), now)
  }

  /** What the main loop keeps true of its state: the counters are
      non-negative, the game is over exactly when MAX_MISSED_DONUTS donuts
      were missed, every donut in the list is active, and the player is on
      screen and clear of every wall. */
  predicate Sound(g: Frame, walls: seq<Rect>)
  {
    && 0 <= g.missed && 0 <= g.score
    && (g.gameOver <==> g.missed >= MAX_MISSED_DONUTS)
    && AllActive(g.pickups)
    && OnScreen(g.px, g.py)
    && !HitsWall(PlayerBox(g.px, g.py), walls)
  }

  /** A frame of the update block keeps the state sound: the move never
      ends inside a wall of the maze, the counters only grow, and the game
      stays over exactly when MAX_MISSED_DONUTS donuts have been missed. */
  lemma TickKeepsSound(g: Frame, keys: Keys, walls: seq<Rect>, cell: Cell, now: real)
    requires WallRectsOf(GRID, walls) && Sound(g, walls)
    ensures Sound(Tick(g, keys, walls, cell, now), walls)
  {
    if !g.gameOver {
      MazeMoveKeepsClear(walls, g.px, g.py, keys);
    }
  }

  /** The state reset_game sets up: the player centred in the drawn cell
      with score 0, no donuts, nothing missed, the spawn timer started now
      and the game running. */
  function StartFrame(cell: Cell, now: real): (r: Frame)
    requires PlayerDraw(cell)
    ensures OnScreen(r.px, r.py)
    ensures PlayerBox(r.px, r.py) == BoxInCell(cell, PLAYER_SIZE)
  {
    Frame(CellOffset(cell.col, PLAYER_SIZE), CellOffset(cell.row, PLAYER_SIZE), 0, [], 0, now, false)
  }

  /** Every donut that leaves the list in a frame is either collected or
      missed: the donuts removed equal the score gained plus the misses added. */
  lemma TickConservesDonuts(g: Frame, keys: Keys, walls: seq<Rect>, cell: Cell, now: real)
    requires !g.gameOver && AllActive(g.pickups)
    ensures var r := Tick(g, keys, walls, cell, now);
            |WithSpawn(g, cell, now)| - |r.pickups| == (r.score - g.score) + (r.missed - g.missed)
  {
    var ps := WithSpawn(g, cell, now);
    var r := Tick(g, keys, walls, cell, now);
    assert AllActive(ps);
    AllActiveCount(ps);
    ScanConserves(ps, PlayerBox(r.px, r.py), now);
  }

  /** The score gained in a frame is the number of donuts caught and the
      misses added the number of donuts that timed out uncaught; the donuts
      left are the survivors. A donut both caught and timed out counts only
      as caught. */
  lemma TickOutcome(g: Frame, keys: Keys, walls: seq<Rect>, cell: Cell, now: real)
    requires !g.gameOver
    ensures var r := Tick(g, keys, walls, cell, now);
            var player := PlayerBox(r.px, r.py);
            && r.score - g.score == CaughtCount(WithSpawn(g, cell, now), player)
            && r.missed - g.missed == ExpiredCount(WithSpawn(g, cell, now), player, now)
            && r.pickups == Survivors(WithSpawn(g, cell, now), player, now)
  {
    var r := Tick(g, keys, walls, cell, now);
    PruneScanIsSurvivors(WithSpawn(g, cell, now), PlayerBox(r.px, r.py), now);
  }

  /** A donut that is caught in the frame it times out goes to the score,
      not to the missed counter. */
  lemma CollectionBeatsTimeout(p: Pickup, player: Rect, now: real)
    requires p.active && Caught(p, player) && TimedOut(p, now)
    ensures Scan([p], player, now) == Scanned([p.(active := false)], 1, 0)
  {
    assert [p][..0] == [];
    assert Scan([p], player, now).pickups[0] == p.(active := false);
    assert Scan([p], player, now).pickups == [p.(active := false)];
    assert CaughtCount([p], player) == 1;
    assert ExpiredCount([p], player, now) == 0;
  }

  /** A donut exactly DONUT_APPEAR_TIME seconds old has not timed out. */
  lemma TimeoutIsStrict(p: Pickup, player: Rect, now: real)
    requires p.active && !Caught(p, player) && now - p.spawnTime == DONUT_APPEAR_TIME
    ensures Scan([p], player, now) == Scanned([p], 0, 0)
  {
    assert [p][..0] == [];
    assert Scan([p], player, now).pickups[0] == p;
    assert Scan([p], player, now).pickups == [p];
    assert CaughtCount([p], player) == 0;
    assert ExpiredCount([p], player, now) == 0;
  }

  /** A donut spawned in cell (1, 1) sits at pixel (50, 50). */
  lemma SpawnExample(now: real)
    ensures var p := SpawnPickup(Cell(1, 1), now); p.x == 50 && p.y == 50
  {
  }

  /** The player flush against the right edge of the wall cell (0, 1) does
      not collide with it; one pixel further left it does. */
  lemma FlushAgainstWall()
    ensures !Overlaps(PlayerBox(40, 45), CellRect(Cell(0, 1)))
    ensures Overlaps(PlayerBox(39, 45), CellRect(Cell(0, 1)))
  {
  }
}
