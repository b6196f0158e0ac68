/** The ball-and-paddle game: the integer paddle step, the game-over gate,
    the restart, and the colour rule of the striped grass background. The
    ball's floating-point flight is not modelled; where the ball is after a
    frame's flight comes in as an input. */
module BallGame {

  const SCREEN_WIDTH: int := 800
  const SCREEN_HEIGHT: int := 600
  const PADDLE_WIDTH: int := 100
  const PADDLE_HEIGHT: int := 15
  const PADDLE_SPEED: int := 8
  const BALL_RADIUS: int := 10
  const BALL_SPEED: int := 5
  /** Side of one square of the grass background, in pixels. */
  const STRIPE_WIDTH: int := 30

  /** Where the paddle starts: centred horizontally, 10 pixels above the
      bottom edge. */
  const PADDLE_START_X: int := SCREEN_WIDTH / 2 - PADDLE_WIDTH / 2
  const PADDLE_Y: int := SCREEN_HEIGHT - PADDLE_HEIGHT - 10

  /** Where the ball starts: the centre of the screen. */
  const BALL_START_X: real := (SCREEN_WIDTH / 2) as real
  const BALL_START_Y: real := (SCREEN_HEIGHT / 2) as real

  lemma StartValues()
    ensures PADDLE_START_X == 350 && PADDLE_Y == 575
    ensures BALL_START_X == 400.0 && BALL_START_Y == 300.0
  {
  }

  // ---------------------------------------------------------------------
  // The paddle

  /** The arrow keys held down during a frame. */
  datatype Arrows = Arrows(left: bool, right: bool)

  /** One frame of paddle input: left moves 8 pixels left only while the
      paddle is right of 0; then right moves 8 pixels right only while it is
      left of SCREEN_WIDTH - PADDLE_WIDTH, tested on the position the left
      step produced. Nothing clamps the result. */
  function PaddleStep(x: int, keys: Arrows): (r: int)
    ensures r == x - PADDLE_SPEED || r == x || r == x + PADDLE_SPEED
    ensures r < x <==> keys.left && x > 0 && !(keys.right && x - PADDLE_SPEED < SCREEN_WIDTH - PADDLE_WIDTH)
    ensures r > x <==> keys.right && x < SCREEN_WIDTH - PADDLE_WIDTH && !(keys.left && x > 0)
  {
    var x1 := if keys.left && x > 0 then x - PADDLE_SPEED else x;
    if keys.right && x1 < SCREEN_WIDTH - PADDLE_WIDTH then x1 + PADDLE_SPEED else x1
  }

  /** The positions the paddle can hold: strictly between -8 and 708, and a
      whole number of steps away from where it starts. */
  predicate PaddleOk(x: int)
  {
    -PADDLE_SPEED < x < SCREEN_WIDTH - PADDLE_WIDTH + PADDLE_SPEED &&
    (x - PADDLE_START_X) % PADDLE_SPEED == 0
  }

  /** The start position is one the paddle can hold. */
  lemma StartIsOk()
    ensures PaddleOk(PADDLE_START_X)
  {
  }

  /** A frame of input keeps the paddle within its range and on its grid,
      although it is never clamped. */
  lemma PaddleStepKeepsOk(x: int, keys: Arrows)
    requires PaddleOk(x)
    ensures PaddleOk(PaddleStep(x, keys))
  {
    var r := PaddleStep(x, keys);
    assert r - PADDLE_START_X == (x - PADDLE_START_X) + (r - x);
  }

  /** The paddle's extreme positions are -2 and 702: it can poke 2 pixels
      past either edge of the screen, never more. */
  lemma PaddleOkBounds(x: int)
    requires PaddleOk(x)
    ensures -2 <= x <= 702
  {
  }

  /** The paddle after a run of frames, one entry per frame. */
  function Run(x: int, frames: seq<Arrows>): (r: int)
    decreases |frames|
  {
    if frames == [] then x else Run(PaddleStep(x, frames[0]), frames[1..])
  }

  /** Any run of frames from a position the paddle can hold ends in one. */
  lemma {:induction false} RunKeepsOk(x: int, frames: seq<Arrows>)
    requires PaddleOk(x)
    ensures PaddleOk(Run(x, frames))
    ensures -2 <= Run(x, frames) <= 702
    decreases |frames|
  {
    if frames != [] {
      PaddleStepKeepsOk(x, frames[0]);
      RunKeepsOk(PaddleStep(x, frames[0]), frames[1..]);
    } else {
      PaddleOkBounds(x);
    }
  }

  /** `n` frames with only the given arrows held. */
  function Held(keys: Arrows, n: nat): (r: seq<Arrows>)
    ensures |r| == n && forall i :: 0 <= i < n ==> r[i] == keys
  {
    seq(n, _ => keys)
  }

  /** Holding left moves the paddle 8 pixels a frame while it is right of 0. */
  lemma {:induction false} HoldLeft(x: int, n: nat)
    requires n == 0 || x - PADDLE_SPEED * (n - 1) > 0
    ensures Run(x, Held(Arrows(true, false), n)) == x - PADDLE_SPEED * n
    decreases n
  {
    if n > 0 {
      var frames := Held(Arrows(true, false), n);
      assert frames[1..] == Held(Arrows(true, false), n - 1);
      HoldLeft(x - PADDLE_SPEED, n - 1);
    }
  }

  /** Holding right moves the paddle 8 pixels a frame while it is left of 700. */
  lemma {:induction false} HoldRight(x: int, n: nat)
    requires n == 0 || x + PADDLE_SPEED * (n - 1) < SCREEN_WIDTH - PADDLE_WIDTH
    ensures Run(x, Held(Arrows(false, true), n)) == x + PADDLE_SPEED * n
    decreases n
  {
    if n > 0 {
      var frames := Held(Arrows(false, true), n);
      assert frames[1..] == Held(Arrows(false, true), n - 1);
      HoldRight(x + PADDLE_SPEED, n - 1);
    }
  }

  /** Both extremes are reached from the start: 44 frames of left reach -2
      and 44 frames of right reach 702, where the paddle then stays. */
  lemma ExtremesReached()
    ensures Run(PADDLE_START_X, Held(Arrows(true, false), 44)) == -2
    ensures Run(PADDLE_START_X, Held(Arrows(false, true), 44)) == 702
    ensures PaddleStep(-2, Arrows(true, false)) == -2
    ensures PaddleStep(702, Arrows(false, true)) == 702
  {
    HoldLeft(PADDLE_START_X, 44);
    HoldRight(PADDLE_START_X, 44);
  }

  // ---------------------------------------------------------------------
  // The ball against the paddle and the screen

  /** The paddle-collision test: the ball's bottom has reached the paddle's
      top edge and its centre lies between the paddle's ends, both included. */
  predicate PaddleHit(ballX: real, ballY: real, paddleX: int, paddleY: int)
  {
    ballY + BALL_RADIUS as real >= paddleY as real &&
    ballX >= paddleX as real && ballX <= (paddleX + PADDLE_WIDTH) as real
  }

  /** The game-over test: the ball's centre has reached the bottom edge. */
  predicate BelowScreen(ballY: real)
  {
    ballY >= SCREEN_HEIGHT as real
  }

  /** A ball centred on the paddle's middle with its bottom on the paddle's
      top edge is a hit; one a pixel past either end is not. */
  lemma HitExamples(paddleX: int)
    ensures PaddleHit((paddleX + PADDLE_WIDTH / 2) as real, (PADDLE_Y - BALL_RADIUS) as real, paddleX, PADDLE_Y)
    ensures !PaddleHit((paddleX - 1) as real, PADDLE_Y as real, paddleX, PADDLE_Y)
    ensures !PaddleHit((paddleX + PADDLE_WIDTH + 1) as real, PADDLE_Y as real, paddleX, PADDLE_Y)
  {
  }

  // ---------------------------------------------------------------------
  // The grass background

  /** The colour of the 30-pixel square whose top-left corner is at pixel
      (x, y): light when the sum of its column and row numbers is even. */
  predicate TileIsLight(x: nat, y: nat)
  {
    (x / STRIPE_WIDTH + y / STRIPE_WIDTH) % 2 == 0
  }

  /** Squares next to each other, across or down, never share a colour. */
  lemma AdjacentTilesDiffer(x: nat, y: nat)
    ensures TileIsLight(x, y) != TileIsLight(x + STRIPE_WIDTH, y)
    ensures TileIsLight(x, y) != TileIsLight(x, y + STRIPE_WIDTH)
  {
    assert (x + STRIPE_WIDTH) / STRIPE_WIDTH == x / STRIPE_WIDTH + 1;
    assert (y + STRIPE_WIDTH) / STRIPE_WIDTH == y / STRIPE_WIDTH + 1;
  }

  /** Squares one step apart diagonally share a colour. */
  lemma DiagonalTilesMatch(x: nat, y: nat)
    ensures TileIsLight(x, y) == TileIsLight(x + STRIPE_WIDTH, y + STRIPE_WIDTH)
  {
    assert (x + STRIPE_WIDTH) / STRIPE_WIDTH == x / STRIPE_WIDTH + 1;
    assert (y + STRIPE_WIDTH) / STRIPE_WIDTH == y / STRIPE_WIDTH + 1;
  }

  // ---------------------------------------------------------------------
  // The game state

  /** The module-level variables the frame loop and the restart update. The
      ball's direction is left out with the rest of its flight. */
  class Game {
    var paddleX: int
    var paddleY: int
    var ballX: real
    var ballY: real
    var currentBallSpeed: int
    var startTime: real
    var score: nat
    var gameOver: bool

    /** What every frame keeps: the paddle holds a position it can reach
        and stays on its row. */
    ghost predicate Valid()
      reads this
    {
      PaddleOk(paddleX) && paddleY == PADDLE_Y
    }

    /** The state reset_game sets up, with `now` as the new start time. */
    ghost predicate Restarted(now: real)
      reads this
    {
      && paddleX == PADDLE_START_X && paddleY == PADDLE_Y
      && ballX == BALL_START_X && ballY == BALL_START_Y
      && currentBallSpeed == BALL_SPEED && score == 0 && !gameOver
      && startTime == now
    }

    /** Program start: the same state reset_game sets up. */
    constructor (now: real)
      ensures Valid() && Restarted(now)
    {
      paddleX := PADDLE_START_X;
      paddleY := PADDLE_Y;
      ballX := BALL_START_X;
      ballY := BALL_START_Y;
      currentBallSpeed := BALL_SPEED;
      score := 0;
      gameOver := false;
      startTime := now;
    }

    /** reset_game: paddle, ball, speed and score back to their start
        values, the game running again and the clock restarted. */
    method Reset(now: real)
      modifies this
      ensures Valid() && Restarted(now)
    {
      paddleX := PADDLE_START_X;
      paddleY := PADDLE_Y;
      ballX := BALL_START_X;
      ballY := BALL_START_Y;
      currentBallSpeed := BALL_SPEED;
      score := 0;
      gameOver := false;
      startTime := now;
    }

    /** A key-down event: R restarts the game, but only once it is over;
        any other key, or R during play, changes nothing. */
    method KeyDown(isR: bool, now: real)
      requires Valid()
      modifies this
      ensures Valid()
      ensures isR && old(gameOver) ==> Restarted(now)
      ensures !(isR && old(gameOver)) ==>
                && paddleX == old(paddleX) && paddleY == old(paddleY)
                && ballX == old(ballX) && ballY == old(ballY)
                && currentBallSpeed == old(currentBallSpeed) && startTime == old(startTime)
                && score == old(score) && gameOver == old(gameOver)
    {
      if isR && gameOver {
        Reset(now);
      }
    }

    /** The `if not game_over:` block of the frame loop. The paddle takes
        its step; the ball moves to (nextX, nextY), where its flight this
        frame took it; a hit on the moved paddle scores one; a ball that has
        reached the bottom edge ends the game. Once the game is over nothing
        changes. */
    method Update(keys: Arrows, nextX: real, nextY: real)
      requires Valid()
      modifies this
      ensures Valid()
      ensures paddleY == old(paddleY) && currentBallSpeed == old(currentBallSpeed)
      ensures startTime == old(startTime)
      ensures old(gameOver) ==>
                && paddleX == old(paddleX) && ballX == old(ballX) && ballY == old(ballY)
                && score == old(score) && gameOver
      ensures !old(gameOver) ==>
                && paddleX == PaddleStep(old(paddleX), keys)
                && ballX == nextX && ballY == nextY
                && score == old(score) + (if PaddleHit(nextX, nextY, paddleX, paddleY) then 1 else 0)
                && gameOver == BelowScreen(nextY)
    {
      if !gameOver {
        PaddleStepKeepsOk(paddleX, keys);
        if keys.left && paddleX > 0 {
          paddleX := paddleX - PADDLE_SPEED;
        }
        if keys.right && paddleX < SCREEN_WIDTH - PADDLE_WIDTH {
          paddleX := paddleX + PADDLE_SPEED;
        }
        ballX, ballY := nextX, nextY;
        if ballY + BALL_RADIUS as real >= paddleY as real && ballX >= paddleX as real &&
           ballX <= (paddleX + PADDLE_WIDTH) as real {
          score := score + 1;
        }
        if ballY >= SCREEN_HEIGHT as real {
          gameOver := true;
        }
      }
    }
  }
}
