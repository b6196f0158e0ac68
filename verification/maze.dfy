/** The donut game's fixed maze: a 15 x 20 grid of path (0) and wall (1)
    cells, the wall rectangles derived from it, and the placement of boxes
    inside path cells. */
module Maze {
  import opened Geometry

  const CELL_SIZE := 40

  /** The maze layout, row by row (0 = path, 1 = wall). */
  const GRID: seq<seq<int>> := [
    [1, 1, 1, 1, 1, 1, 1, 1, 1, 1, 1, 1, 1, 1, 1, 1, 1, 1, 1, 1],
    [1, 0, 0, 0, 0, 0, 0, 0, 0, 1, 0, 0, 0, 0, 0, 0, 0, 0, 0, 1],
    [1, 0, 1, 1, 0, 1, 1, 1, 0, 1, 0, 1, 1, 1, 0, 1, 1, 1, 0, 1],
    [1, 0, 0, 0, 0, 0, 0, 0, 0, 0, 0, 0, 0, 0, 0, 0, 0, 0, 0, 1],
    [1, 0, 1, 1, 0, 1, 0, 1, 1, 1, 1, 1, 0, 1, 0, 1, 1, 1, 0, 1],
    [1, 0, 0, 0, 0, 1, 0, 0, 0, 1, 0, 0, 0, 1, 0, 0, 0, 0, 0, 1],
    [1, 1, 1, 1, 0, 1, 1, 1, 0, 1, 0, 1, 1, 1, 0, 1, 1, 1, 1, 1],
    [0, 0, 0, 1, 0, 1, 0, 0, 0, 0, 0, 0, 0, 1, 0, 1, 0, 0, 0, 0],
    [1, 1, 1, 1, 0, 1, 0, 1, 1, 0, 1, 1, 0, 1, 0, 1, 1, 1, 1, 1],
    [0, 0, 0, 0, 0, 0, 0, 1, 0, 0, 0, 1, 0, 0, 0, 0, 0, 0, 0, 0],
    [1, 1, 1, 1, 0, 1, 0, 1, 1, 1, 1, 1, 0, 1, 0, 1, 1, 1, 1, 1],
    [0, 0, 0, 1, 0, 1, 0, 0, 0, 0, 0, 0, 0, 1, 0, 1, 0, 0, 0, 0],
    [1, 1, 1, 1, 0, 1, 0, 1, 1, 1, 1, 1, 0, 1, 0, 1, 1, 1, 1, 1],
    [1, 0, 0, 0, 0, 0, 0, 0, 0, 1, 0, 0, 0, 0, 0, 0, 0, 0, 0, 1],
    [1, 0, 1, 1, 0, 1, 1, 1, 0, 1, 0, 1, 1, 1, 0, 1, 1, 1, 0, 1]
  ]

  const ROWS := 15
  const COLS := 20

  /** A grid cell, by column and row. */
  datatype Cell = Cell(col: int, row: int)

  predicate InGrid(grid: seq<seq<int>>, c: Cell)
  {
    0 <= c.row < |grid| && 0 <= c.col < |grid[c.row]|
  }

  predicate IsPath(grid: seq<seq<int>>, c: Cell)
  {
    InGrid(grid, c) && grid[c.row][c.col] == 0
  }

  predicate IsWall(grid: seq<seq<int>>, c: Cell)
  {
    InGrid(grid, c) && grid[c.row][c.col] == 1
  }

  /** Every row of the maze has COLS cells and there are ROWS rows. */
  predicate Rectangular(grid: seq<seq<int>>)
  {
    |grid| == ROWS && forall r :: 0 <= r < |grid| ==> |grid[r]| == COLS
  }

  lemma GridIsRectangular()
    ensures Rectangular(GRID)
  {
    forall r | 0 <= r < |GRID| ensures |GRID[r]| == COLS {
      assert r in {0, 1, 2, 3, 4, 5, 6, 7, 8, 9, 10, 11, 12, 13, 14};
    }
  }

  /** The screen rectangle that a cell occupies. */
  function CellRect(c: Cell): Rect
  {
    Rect(c.col * CELL_SIZE, c.row * CELL_SIZE, CELL_SIZE, CELL_SIZE)
  }

  // ---------------------------------------------------------------------
  // Wall rectangles, in the order the construction loop appends them

  /** The wall rectangles contributed by the first `n` cells of row `r`. */
  function RowWalls(r: int, cells: seq<int>, n: nat): seq<Rect>
    requires n <= |cells|
  {
    if n == 0 then []
    else RowWalls(r, cells, n - 1) + (if cells[n - 1] == 1 then [CellRect(Cell(n - 1, r))] else [])
  }

  /** The wall rectangles contributed by the first `m` rows of the grid. */
  function RowsWalls(grid: seq<seq<int>>, m: nat): seq<Rect>
    requires m <= |grid|
  {
    if m == 0 then []
    else RowsWalls(grid, m - 1) + RowWalls(m - 1, grid[m - 1], |grid[m - 1]|)
  }

  /** The wall rectangles of the whole grid, row-major. */
  function GridWalls(grid: seq<seq<int>>): seq<Rect>
  {
    RowsWalls(grid, |grid|)
  }

  lemma {:induction false} RowWallsMembers(r: int, cells: seq<int>, n: nat, w: Rect)
    requires n <= |cells|
    ensures w in RowWalls(r, cells, n) <==>
            exists c :: 0 <= c < n && cells[c] == 1 && w == CellRect(Cell(c, r))
  {
    if n > 0 {
      RowWallsMembers(r, cells, n - 1, w);
      if cells[n - 1] == 1 && w == CellRect(Cell(n - 1, r)) {
        assert 0 <= n - 1 < n && cells[n - 1] == 1;
      }
    }
  }

  lemma {:induction false} RowsWallsMembers(grid: seq<seq<int>>, m: nat, w: Rect)
    requires m <= |grid|
    ensures w in RowsWalls(grid, m) <==>
            exists c :: IsWall(grid, c) && c.row < m && w == CellRect(c)
  {
    if m > 0 {
      RowsWallsMembers(grid, m - 1, w);
      RowWallsMembers(m - 1, grid[m - 1], |grid[m - 1]|, w);
      if w in RowWalls(m - 1, grid[m - 1], |grid[m - 1]|) {
        var x :| 0 <= x < |grid[m - 1]| && grid[m - 1][x] == 1 && w == CellRect(Cell(x, m - 1));
        assert IsWall(grid, Cell(x, m - 1));
      }
      if exists c :: IsWall(grid, c) && c.row < m && w == CellRect(c) {
        var c :| IsWall(grid, c) && c.row < m && w == CellRect(c);
        if c.row == m - 1 {
          assert 0 <= c.col < |grid[m - 1]| && grid[m - 1][c.col] == 1 && w == CellRect(Cell(c.col, m - 1));
        }
      }
    }
  }

  /** `wall_rects` holds a rectangle exactly for the wall cells of the grid. */
  lemma GridWallsMembers(grid: seq<seq<int>>, w: Rect)
    ensures w in GridWalls(grid) <==> exists c :: IsWall(grid, c) && w == CellRect(c)
  {
    RowsWallsMembers(grid, |grid|, w);
  }

  /** Row-major order on cell rectangles: earlier row, or same row and further left. */
  predicate Before(a: Rect, b: Rect)
  {
    a.y < b.y || (a.y == b.y && a.x < b.x)
  }

  predicate Ascending(ws: seq<Rect>)
  {
    forall i, j :: 0 <= i < j < |ws| ==> Before(ws[i], ws[j])
  }

  lemma {:induction false} RowWallsAscending(r: int, cells: seq<int>, n: nat)
    requires n <= |cells|
    ensures Ascending(RowWalls(r, cells, n))
    ensures forall w :: w in RowWalls(r, cells, n) ==> w.y == r * CELL_SIZE && w.x < n * CELL_SIZE
  {
    if n > 0 {
      RowWallsAscending(r, cells, n - 1);
    }
  }

  lemma {:induction false} RowsWallsAscending(grid: seq<seq<int>>, m: nat)
    requires m <= |grid|
    ensures Ascending(RowsWalls(grid, m))
    ensures forall w :: w in RowsWalls(grid, m) ==> w.y < m * CELL_SIZE
  {
    if m > 0 {
      RowsWallsAscending(grid, m - 1);
      RowWallsAscending(m - 1, grid[m - 1], |grid[m - 1]|);
      var front, back := RowsWalls(grid, m - 1), RowWalls(m - 1, grid[m - 1], |grid[m - 1]|);
      var all := front + back;
      forall i, j | 0 <= i < j < |all| ensures Before(all[i], all[j]) {
        if j < |front| {
        } else if i < |front| {
          assert all[i] in front && all[j] == back[j - |front|];
        } else {
          assert all[i] == back[i - |front|] && all[j] == back[j - |front|];
        }
      }
    }
  }

  /** No wall cell contributes two rectangles: the rectangles appear in
      strict row-major order, so no two entries are equal. */
  lemma GridWallsDistinct(grid: seq<seq<int>>)
    ensures Ascending(GridWalls(grid))
    ensures forall i, j :: 0 <= i < j < |GridWalls(grid)| ==> GridWalls(grid)[i] != GridWalls(grid)[j]
  {
    RowsWallsAscending(grid, |grid|);
  }

  /** Every rectangle in `walls` is the rectangle of a wall cell of `grid`. */
  ghost predicate OnlyWallCells(grid: seq<seq<int>>, walls: seq<Rect>)
  {
    forall i :: 0 <= i < |walls| ==> exists c :: IsWall(grid, c) && walls[i] == CellRect(c)
  }

  /** Every wall cell of `grid` has its rectangle in `walls`. */
  ghost predicate EveryWallCell(grid: seq<seq<int>>, walls: seq<Rect>)
  {
    forall c :: IsWall(grid, c) ==> CellRect(c) in walls
  }

  /** `walls` holds one rectangle for each wall cell of `grid` and nothing
      else, in row-major order (so no cell appears twice). */
  ghost predicate WallRectsOf(grid: seq<seq<int>>, walls: seq<Rect>)
  {
    OnlyWallCells(grid, walls) && EveryWallCell(grid, walls) && Ascending(walls)
  }

  /** The row-major wall list is the one and only list of wall rectangles. */
  lemma GridWallsAreWallRects(grid: seq<seq<int>>)
    ensures WallRectsOf(grid, GridWalls(grid))
  {
    var walls := GridWalls(grid);
    forall i | 0 <= i < |walls| ensures exists c :: IsWall(grid, c) && walls[i] == CellRect(c) {
      GridWallsMembers(grid, walls[i]);
    }
    forall c | IsWall(grid, c) ensures CellRect(c) in walls {
      GridWallsMembers(grid, CellRect(c));
    }
    GridWallsDistinct(grid);
  }

  /** The nested loop that builds `wall_rects`: one rectangle per wall cell,
      appended row by row, left to right. */
  method BuildWallRects(grid: seq<seq<int>>) returns (walls: seq<Rect>)
    ensures WallRectsOf(grid, walls)
  {
    walls := [];
    var y := 0;
    while y < |grid|
      invariant 0 <= y <= |grid|
      invariant walls == RowsWalls(grid, y)
    {
      var x := 0;
      while x < |grid[y]|
        invariant 0 <= x <= |grid[y]|
        invariant walls == RowsWalls(grid, y) + RowWalls(y, grid[y], x)
      {
        if grid[y][x] == 1 {
          walls := walls + [CellRect(Cell(x, y))];
        }
        x := x + 1;
      }
      y := y + 1;
    }
    GridWallsAreWallRects(grid);
  }

  // ---------------------------------------------------------------------
  // Placement inside a cell

  /** The pixel coordinate at which an object of side `size` is centred in
      the cell at index `i`: `i * CELL_SIZE + (CELL_SIZE - size) // 2`. */
  function CellOffset(i: int, size: int): int
  {
    i * CELL_SIZE + (CELL_SIZE - size) / 2
  }

  /** The box of side `size` that the game places in cell `c`. */
  function BoxInCell(c: Cell, size: int): (b: Rect)
    requires 0 < size <= CELL_SIZE
    ensures Within(b, CellRect(c))
    ensures b.w == size && b.h == size
  {
    Rect(CellOffset(c.col, size), CellOffset(c.row, size), size, size)
  }

  /** A box that lies within a path cell collides with no wall rectangle. */
  lemma WithinPathMissesWalls(grid: seq<seq<int>>, walls: seq<Rect>, c: Cell, box: Rect)
    requires OnlyWallCells(grid, walls)
    requires IsPath(grid, c) && Within(box, CellRect(c))
    ensures !HitsWall(box, walls)
  {
    forall i | 0 <= i < |walls| ensures !Overlaps(box, walls[i]) {
      var d :| IsWall(grid, d) && walls[i] == CellRect(d);
    }
  }

  // ---------------------------------------------------------------------
  // Rejection sampling

  /** The cells `random.randint` can draw for the player:
      columns 1..COLS-2 and rows 1..ROWS-2 (the border ring is never drawn). */
  predicate PlayerDraw(c: Cell)
  {
    1 <= c.col <= COLS - 2 && 1 <= c.row <= ROWS - 2
  }

  /** The cells `random.randint` can draw for a donut: the whole grid. */
  predicate DonutDraw(c: Cell)
  {
    0 <= c.col <= COLS - 1 && 0 <= c.row <= ROWS - 1
  }

  /** The `while True` rejection loop, with the random source given as the
      sequence of cells it would draw: the result is the index of the first
      draw that is a path cell, or |draws| if no draw in the supply is one. */
  method SampleCell(grid: seq<seq<int>>, draws: seq<Cell>) returns (k: nat)
    requires forall i :: 0 <= i < |draws| ==> InGrid(grid, draws[i])
    ensures k <= |draws|
    ensures forall j :: 0 <= j < k ==> !IsPath(grid, draws[j])
    ensures k < |draws| ==> IsPath(grid, draws[k])
  {
    k := 0;
    while k < |draws|
      invariant k <= |draws|
      invariant forall j :: 0 <= j < k ==> !IsPath(grid, draws[j])
    {
      var c := draws[k];
      if grid[c.row][c.col] == 0 {
        return;
      }
      k := k + 1;
    }
  }

  /** The border cell in row 7, column 0 is a path cell: donuts may appear
      there though the player is never placed there. */
  lemma BorderPathCell()
    ensures IsPath(GRID, Cell(0, 7)) && DonutDraw(Cell(0, 7)) && !PlayerDraw(Cell(0, 7))
  {
  }
}
