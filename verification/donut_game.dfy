/** The objects of Police Donut Chase: the player, the donuts and the game
    state that the main loop updates in place. Each state-changing method is
    proved to do what the value-level rules of module DonutRules say. */
module DonutGame {
  import opened Geometry
  import opened Maze
  import opened DonutRules

  /** The police officer: a square box that moves through the maze. */
  class Player {
    var x: int
    var y: int
    var score: int
    const size: int := PLAYER_SIZE
    const speed: int := PLAYER_SPEED

    /** A new player, with score 0, placed in the path cell drawn for it. */
    constructor (cell: Cell)
      requires PlayerDraw(cell) && IsPath(GRID, cell)
      ensures score == 0
      ensures PlayerBox(x, y) == BoxInCell(cell, PLAYER_SIZE)
      ensures OnScreen(x, y)
    {
      score := 0;
      new;
      FindValidPosition(cell);
    }

    /** Player.find_valid_position after the rejection loop has settled on
        `cell`: the player's box is centred in that cell, so it lies on
        screen and clear of every wall. */
    method FindValidPosition(cell: Cell)
      requires PlayerDraw(cell) && IsPath(GRID, cell)
      modifies this`x, this`y
      ensures PlayerBox(x, y) == BoxInCell(cell, PLAYER_SIZE)
      ensures OnScreen(x, y)
    {
      x := cell.col * CELL_SIZE + (CELL_SIZE - size) / 2;
      y := cell.row * CELL_SIZE + (CELL_SIZE - size) / 2;
    }

    /** Player.move: step for each held key, revert both coordinates if the
        new box collides with any wall, then clamp to the screen. */
    method Move(keys: Keys, walls: seq<Rect>)
      modifies this`x, this`y
      ensures (x, y) == MoveTo(old(x), old(y), keys, walls)
    {
      var originalX, originalY := x, y;
      if keys.left {
        x := x - speed;
      }
      if keys.right {
        x := x + speed;
      }
      if keys.up {
        y := y - speed;
      }
      if keys.down {
        y := y + speed;
      }
      var playerRect := Rect(x, y, size, size);
      ghost var hit := false;
      var i := 0;
      while i < |walls|
        invariant 0 <= i <= |walls|
        invariant (x, y) == Stepped(originalX, originalY, keys)
        invariant playerRect == PlayerBox(x, y)
        invariant forall j :: 0 <= j < i ==> !Overlaps(playerRect, walls[j])
      {
        if Overlaps(playerRect, walls[i]) {
          x, y := originalX, originalY;
          hit := true;
          break;
        }
        i := i + 1;
      }
      assert hit == HitsWall(playerRect, walls);
      x := Clamp(x, 0, SCREEN_WIDTH - size);
      y := Clamp(y, 0, SCREEN_HEIGHT - size);
    }
  }

  /** A donut on the screen. */
  class Donut {
    var x: int
    var y: int
    var spawnTime: real
    var active: bool
    const size: int := DONUT_SIZE

    /** The donut as a value. */
    function Value(): Pickup
      reads this
    {
      Pickup(x, y, spawnTime, active)
    }

    /** Donut(): a new donut, spawned in the path cell drawn for it. */
    constructor (cell: Cell, now: real)
      requires DonutDraw(cell) && IsPath(GRID, cell)
      ensures Value() == SpawnPickup(cell, now)
    {
      new;
      Spawn(cell, now);
    }

    /** Donut.spawn after the rejection loop has settled on `cell`: centre
        the donut in it, stamp it with the current time and make it active. */
    method Spawn(cell: Cell, now: real)
      requires DonutDraw(cell) && IsPath(GRID, cell)
      modifies this
      ensures Value() == SpawnPickup(cell, now)
    {
      x := cell.col * CELL_SIZE + (CELL_SIZE - size) / 2;
      y := cell.row * CELL_SIZE + (CELL_SIZE - size) / 2;
      spawnTime := now;
      active := true;
    }

    /** Donut.check_timeout: deactivate and report true when the donut has
        been on screen for strictly more than DONUT_APPEAR_TIME seconds. */
    method CheckTimeout(now: real) returns (expired: bool)
      modifies this`active
      ensures expired == TimedOut(old(Value()), now)
      ensures active == (old(active) && !expired)
    {
      if now - spawnTime > DONUT_APPEAR_TIME {
        active := false;
        return true;
      }
      return false;
    }

    /** One pass of the update block's donut loop over this donut: an active
        donut whose box the player's box overlaps is collected; otherwise an active donut
        that has timed out is missed; either way it goes inactive. */
    method Check(player: Player, now: real) returns (caught: bool, expired: bool)
      modifies this`active
      ensures var box := PlayerBox(player.x, player.y);
              && Value() == Visit(old(Value()), box, now)
              && caught == (old(active) && Caught(old(Value()), box))
              && expired == (old(active) && !Caught(old(Value()), box) && TimedOut(old(Value()), now))
    {
      caught, expired := false, false;
      if active {
        if CheckCollision(player) {
          active := false;
          caught := true;
        } else {
          expired := CheckTimeout(now);
        }
      }
    }

    /** Donut.check_collision: the player's box collides with this donut's. */
    function CheckCollision(player: Player): (hit: bool)
      reads this, player
      ensures hit == Caught(Value(), PlayerBox(player.x, player.y))
    {
      Overlaps(Rect(player.x, player.y, player.size, player.size), Rect(x, y, size, size))
    }
  }

  /** The donuts of a list, as values. */
  ghost function Values(ds: seq<Donut>): (vs: seq<Pickup>)
    reads ds
  {
    seq(|ds|, i reads ds requires 0 <= i < |ds| => ds[i].Value())
  }

  /** Positions i and j of the list hold different donut objects. */
  ghost predicate Apart(ds: seq<Donut>, i: int, j: int)
    requires 0 <= i < |ds| && 0 <= j < |ds|
  {
    ds[i] != ds[j]
  }

  /** No donut object appears twice in the list. */
  ghost predicate Distinct(ds: seq<Donut>)
  {
    forall i, j :: 0 <= i < j < |ds| ==> Apart(ds, i, j)
  }

  /** In a list of distinct donuts, the one at position i is at no other. */
  lemma DistinctAt(ds: seq<Donut>, i: int)
    requires Distinct(ds) && 0 <= i < |ds|
    ensures forall j :: 0 <= j < |ds| && j != i ==> ds[j] != ds[i]
  {
    forall j | 0 <= j < |ds| && j != i
      ensures ds[j] != ds[i]
    {
      if j < i {
        assert Apart(ds, j, i);
      } else {
        assert Apart(ds, i, j);
      }
    }
  }

  /** The donut objects of `ds` that are still active, in their order. */
  function ActiveDonuts(ds: seq<Donut>): (r: seq<Donut>)
    reads ds
    ensures forall d :: d in r ==> d in ds
  {
    if ds == [] then []
    else ActiveDonuts(ds[..|ds| - 1]) + (if ds[|ds| - 1].active then [ds[|ds| - 1]] else [])
  }

  /** Pruning a list of distinct donuts leaves them distinct. */
  lemma {:induction false} ActiveDonutsDistinct(ds: seq<Donut>)
    requires Distinct(ds)
    ensures Distinct(ActiveDonuts(ds))
  {
    if ds != [] {
      var front, last := ds[..|ds| - 1], ds[|ds| - 1];
      forall i, j | 0 <= i < j < |front|
        ensures Apart(front, i, j)
      {
        assert Apart(ds, i, j);
      }
      ActiveDonutsDistinct(front);
      if last.active {
        DistinctAt(ds, |ds| - 1);
        assert last !in front by {
          forall j | 0 <= j < |front|
            ensures front[j] != last
          {
            assert front[j] == ds[j];
          }
        }
        DistinctAppend(ActiveDonuts(front), last);
      } else {
        assert ActiveDonuts(ds) == ActiveDonuts(front);
      }
    }
  }

  /** A donut not yet in a list of distinct donuts keeps it distinct. */
  lemma DistinctAppend(ds: seq<Donut>, d: Donut)
    requires Distinct(ds) && d !in ds
    ensures Distinct(ds + [d])
  {
    var e := ds + [d];
    forall i, j | 0 <= i < j < |e|
      ensures Apart(e, i, j)
    {
      if j < |ds| {
        assert Apart(ds, i, j);
      } else {
        assert e[i] == ds[i];
      }
    }
  }

  lemma ValuesAppend(a: seq<Donut>, b: seq<Donut>)
    ensures Values(a + b) == Values(a) + Values(b)
  {
  }

  /** Pruning the objects prunes their values. */
  lemma {:induction false} ActiveDonutsValues(ds: seq<Donut>)
    ensures Values(ActiveDonuts(ds)) == Prune(Values(ds))
  {
    if ds != [] {
      var front, last := ds[..|ds| - 1], ds[|ds| - 1];
      var tail := if last.active then [last] else [];
      ActiveDonutsValues(front);
      var vs := Values(ds);
      assert vs[..|vs| - 1] == Values(front);
      assert vs[|vs| - 1] == last.Value();
      assert Prune(vs) == Prune(Values(front)) + (if last.active then [last.Value()] else []);
      ValuesAppend(ActiveDonuts(front), tail);
      assert Values(tail) == (if last.active then [last.Value()] else []);
    }
  }

  /** The game's state: the module-level variables of the main loop. */
  class Game {
    var player: Player
    var donuts: seq<Donut>
    var missedDonuts: int
    var lastSpawnTime: real
    var gameOver: bool
    /** `wall_rects`, built once from the maze. */
    const walls: seq<Rect>

    /** The invariant the main loop keeps: the walls are the maze's, the
        donut list holds distinct donut objects, and the state is sound. */
    ghost predicate Valid()
      reads this, player, donuts
    {
      && WallRectsOf(GRID, walls)
      && Distinct(donuts)
      && Sound(View(), walls)
    }

    /** The state as a value. */
    ghost function View(): Frame
      reads this, player, donuts
    {
      Frame(player.x, player.y, player.score, Values(donuts), missedDonuts, lastSpawnTime, gameOver)
    }

    /** Program start: build the wall rectangles and set up the state as
        reset_game does, the player in the path cell drawn for it. */
    constructor (cell: Cell, now: real)
      requires PlayerDraw(cell) && IsPath(GRID, cell)
      ensures Valid() && fresh(player)
      ensures View() == StartFrame(cell, now)
    {
      var w := BuildWallRects(GRID);
      walls := w;
      player := new Player(cell);
      donuts := [];
      missedDonuts := 0;
      lastSpawnTime := now;
      gameOver := false;
      new;
      WithinPathMissesWalls(GRID, walls, cell, PlayerBox(player.x, player.y));
    }

    /** reset_game: a new player in the drawn cell, no donuts, nothing
        missed, the spawn timer restarted and the game running again. */
    method Reset(cell: Cell, now: real)
      requires Valid()
      requires PlayerDraw(cell) && IsPath(GRID, cell)
      modifies this
      ensures Valid() && fresh(player)
      ensures View() == StartFrame(cell, now)
    {
      player := new Player(cell);
      donuts := [];
      missedDonuts := 0;
      lastSpawnTime := now;
      gameOver := false;
      WithinPathMissesWalls(GRID, walls, cell, PlayerBox(player.x, player.y));
    }

    /** A key-down event: R restarts the game, but only once it is over;
        any other key, or R during play, changes nothing. */
    method KeyDown(isR: bool, cell: Cell, now: real)
      requires Valid()
      requires PlayerDraw(cell) && IsPath(GRID, cell)
      modifies this
      ensures Valid()
      ensures isR && old(gameOver) ==> fresh(player) && View() == StartFrame(cell, now)
      ensures !(isR && old(gameOver)) ==> player == old(player) && donuts == old(donuts) && View() == old(View())
    {
      if isR && gameOver {
        Reset(cell, now);
      }
    }

    /** The spawn step of the update block: once more than DONUT_SPAWN_RATE
        seconds have passed since the last spawn, a new donut placed in
        `cell` joins the end of the list and the spawn timer restarts. */
    method SpawnIfDue(cell: Cell, now: real) returns (ghost added: seq<Donut>)
      requires Distinct(donuts)
      requires DonutDraw(cell) && IsPath(GRID, cell)
      modifies this`donuts, this`lastSpawnTime
      ensures donuts == old(donuts) + added && Distinct(donuts)
      ensures forall i :: 0 <= i < |added| ==> fresh(added[i])
      ensures Values(added) == if SpawnDue(old(lastSpawnTime), now) then [SpawnPickup(cell, now)] else []
      ensures lastSpawnTime == if SpawnDue(old(lastSpawnTime), now) then now else old(lastSpawnTime)
    {
      added := [];
      if now - lastSpawnTime > DONUT_SPAWN_RATE {
        var donut := new Donut(cell, now);
        DistinctAppend(donuts, donut);
        donuts := donuts + [donut];
        lastSpawnTime := now;
        added := [donut];
      }
    }

    /** The first half of the update block: move the player, then spawn a
        donut in `cell` when one is due. */
    method MoveAndSpawn(keys: Keys, now: real, cell: Cell) returns (ghost added: seq<Donut>)
      requires Distinct(donuts)
      requires DonutDraw(cell) && IsPath(GRID, cell)
      modifies player`x, player`y, this`donuts, this`lastSpawnTime
      ensures donuts == old(donuts) + added && Distinct(donuts)
      ensures forall i :: 0 <= i < |added| ==> fresh(added[i])
      ensures View() == MoveStep(old(View()), keys, walls, cell, now)
    {
      ghost var start := View();
      ghost var before := donuts;
      player.Move(keys, walls);
      assert Values(before) == start.pickups;
      added := SpawnIfDue(cell, now);
    }

    /** The donut loop of the update block, over a copy of the list: each active
        donut the player's box overlaps goes inactive and scores; otherwise each
        active one that has timed out goes inactive and counts as missed.
        `before` is the list's contents on entry. */
    method CheckDonuts(now: real, ghost before: seq<Pickup>)
      requires Distinct(donuts)
      requires Values(donuts) == before
      modifies player`score, this`missedDonuts, donuts
      ensures var scanned := Scan(before, PlayerBox(player.x, player.y), now);
              && Values(donuts) == scanned.pickups
              && player.score == old(player.score) + scanned.collected
              && missedDonuts == old(missedDonuts) + scanned.missed
    {
      ghost var box := PlayerBox(player.x, player.y);
      var i := 0;
      while i < |donuts|
        invariant 0 <= i <= |donuts|
        invariant forall j :: 0 <= j < i ==> donuts[j].Value() == Visit(before[j], box, now)
        invariant forall j :: i <= j < |donuts| ==> donuts[j].Value() == before[j]
        invariant player.score == old(player.score) + CaughtCount(before[..i], box)
        invariant missedDonuts == old(missedDonuts) + ExpiredCount(before[..i], box, now)
      {
        CountsStep(before, i, box, now);
        DistinctAt(donuts, i);
        var caught, expired := donuts[i].Check(player, now);
        if caught {
          player.score := player.score + 1;
        } else if expired {
          missedDonuts := missedDonuts + 1;
        }
        i := i + 1;
      }
      assert before[..i] == before;
    }

    /** The pruning step of the update block: the list is replaced by the
        donuts of it that are still active, in their order. `vs` is the list's contents on
        entry. */
    method RemoveInactive(ghost vs: seq<Pickup>)
      requires Distinct(donuts) && Values(donuts) == vs
      modifies this`donuts
      ensures Distinct(donuts) && Values(donuts) == Prune(vs)
    {
      ActiveDonutsValues(donuts);
      ActiveDonutsDistinct(donuts);
      donuts := ActiveDonuts(donuts);
    }

    /** The last step of the update block: the game ends once
        MAX_MISSED_DONUTS donuts have been missed. */
    method CheckGameOver()
      modifies this`gameOver
      ensures gameOver == (old(gameOver) || missedDonuts >= MAX_MISSED_DONUTS)
    {
      if missedDonuts >= MAX_MISSED_DONUTS {
        gameOver := true;
      }
    }

    /** The second half of the update block: the donut loop, the pruning of
        the list, and the game-over test. */
    method ScanAndPrune(now: real)
      requires Distinct(donuts)
      modifies player`score, this`missedDonuts, this`donuts, this`gameOver, donuts
      ensures Distinct(donuts)
      ensures View() == ScanStep(old(View()), now)
    {
      ghost var start := View();
      ghost var scanned := Scan(start.pickups, PlayerBox(start.px, start.py), now);
      ghost var target := ScanStep(start, now);
      assert target == start.(score := start.score + scanned.collected, pickups := Prune(scanned.pickups),
                              missed := target.missed, gameOver := start.gameOver || target.missed >= MAX_MISSED_DONUTS);
      CheckDonuts(now, start.pickups);
      RemoveInactive(scanned.pickups);
      CheckGameOver();
      assert View() == start.(score := player.score, pickups := Values(donuts),
                              missed := missedDonuts, gameOver := gameOver);
    }

    /** The `if not game_over:` block of the main loop, run once per frame:
        it does what Tick says, and nothing once the game is over. `cell`
        is where a donut spawned in this frame is placed. */
    method Update(keys: Keys, now: real, cell: Cell)
      requires Valid()
      requires DonutDraw(cell) && IsPath(GRID, cell)
      modifies this, player, donuts
      ensures Valid() && player == old(player)
      ensures View() == Tick(old(View()), keys, walls, cell, now)
      ensures old(gameOver) ==> donuts == old(donuts)
    {
      if !gameOver {
        ghost var start := View();
        var added := MoveAndSpawn(keys, now, cell);
        ScanAndPrune(now);
        TickKeepsSound(start, keys, walls, cell, now);
      }
    }
  }
}
