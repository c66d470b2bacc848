/** Tile lookup, the motion step with the horizontal tunnel, and the
    two-probe wall test (isWall, getNextPos and checkCollision in App.tsx). */
module Motion {
  import opened Types

  /** The maze array has the configured shape: GRID_HEIGHT rows of GRID_WIDTH tiles. */
  predicate Fits(c: Config, maze: array2<TileType>) {
    ValidConfig(c) && maze.Length0 == c.gridHeight && maze.Length1 == c.gridWidth
  }

  predicate InGrid(c: Config, col: int, row: int) {
    0 <= col < c.gridWidth && 0 <= row < c.gridHeight
  }

  lemma MulNonneg(a: int, b: int)
    requires a >= 0 && b >= 0
    ensures a * b >= 0
  {
  }

  /** A cell index is in range exactly when its coordinate lies in the matching stretch of units. */
  lemma CellInRange(x: int, t: int, n: int)
    requires t > 0
    ensures (0 <= x / t < n) <==> (0 <= x < n * t)
  {
    var q, m := x / t, x % t;
    assert x == t * q + m && 0 <= m < t;
    if 0 <= q < n {
      MulNonneg(t, q);
      MulNonneg(t, n - q - 1);
      assert t * (n - q - 1) == t * n - t * q - t;
    }
    if q < 0 {
      MulNonneg(t, -q - 1);
      assert t * (-q - 1) == -(t * q) - t;
    }
    if q >= n {
      MulNonneg(t, q - n);
      assert t * (q - n) == t * q - t * n;
    }
  }

  /** The index of the tile column (or row) holding coordinate v: floor(v / TILE_SIZE). */
  function Cell(c: Config, v: int): int
    requires c.tileSize > 0
  {
    v / TileUnits(c)
  }

  /** isWall: whether the tile holding point (x, y) is a wall. A point whose
      cell lies outside the grid is never a wall, so the tunnel stays open. */
  function IsWall(c: Config, maze: array2<TileType>, x: int, y: int): (r: bool)
    requires Fits(c, maze)
    reads maze
    ensures r ==> InGrid(c, Cell(c, x), Cell(c, y))
    ensures InGrid(c, Cell(c, x), Cell(c, y)) ==> (r <==> maze[Cell(c, y), Cell(c, x)] == Wall)
  {
    var col, row := Cell(c, x), Cell(c, y);
    if !InGrid(c, col, row) then false else maze[row, col] == Wall
  }

  /** Walls are found only inside the maze's rectangle of
      GRID_WIDTH x GRID_HEIGHT tiles; every point outside it is open. */
  lemma WallsLieInsideMaze(c: Config, maze: array2<TileType>, x: int, y: int)
    requires Fits(c, maze)
    ensures IsWall(c, maze, x, y) ==>
              0 <= x < c.gridWidth * TileUnits(c) && 0 <= y < c.gridHeight * TileUnits(c)
  {
    CellInRange(x, TileUnits(c), c.gridWidth);
    CellInRange(y, TileUnits(c), c.gridHeight);
  }

  /** The horizontal component of one unit step in direction d. */
  function DeltaX(d: Direction): int {
    match d
    case Left => -1
    case Right => 1
    case _ => 0
  }

  /** The vertical component of one unit step in direction d (y grows downwards). */
  function DeltaY(d: Direction): int {
    match d
    case Up => -1
    case Down => 1
    case _ => 0
  }

  /** The tunnel: an x left of the maze jumps to the right edge, one right of it jumps to 0. */
  function WrapX(c: Config, x: int): (r: int)
    requires ValidConfig(c)
    ensures 0 <= r <= MaxX(c)
    ensures 0 <= x <= MaxX(c) ==> r == x
    ensures x < 0 ==> r == MaxX(c)
    ensures x > MaxX(c) ==> r == 0
  {
    var w := if x < 0 then MaxX(c) else x;
    if w > MaxX(c) then 0 else w
  }

  /** getNextPos: a step of `speed` units along dir; only x wraps, through the tunnel. */
  function GetNextPos(c: Config, pos: Position, dir: Direction, speed: int): (r: Position)
    requires ValidConfig(c)
    ensures 0 <= r.x <= MaxX(c)
    ensures r.y == pos.y + DeltaY(dir) * speed
    ensures r.x == WrapX(c, pos.x + DeltaX(dir) * speed)
    ensures dir == None && 0 <= pos.x <= MaxX(c) ==> r == pos
  {
    var nx := pos.x + DeltaX(dir) * speed;
    var ny := pos.y + DeltaY(dir) * speed;
    Position(WrapX(c, nx), ny)
  }

  /** Exactly one coordinate moves, by exactly `speed`, for a cardinal
      direction (before the tunnel wrap), and none for None. */
  lemma StepMovesOneAxis(c: Config, pos: Position, dir: Direction, speed: int)
    requires ValidConfig(c)
    ensures var r := GetNextPos(c, pos, dir, speed);
      (dir == Up || dir == Down ==> r.x == WrapX(c, pos.x) &&
                                    (if dir == Up then pos.y - r.y else r.y - pos.y) == speed) &&
      (dir == Left || dir == Right ==> r.y == pos.y &&
                                       (0 <= pos.x + DeltaX(dir) * speed <= MaxX(c) ==>
                                          (if dir == Left then pos.x - r.x else r.x - pos.x) == speed)) &&
      (dir == None ==> r.y == pos.y && r.x == WrapX(c, pos.x))
  {
  }

  /** A step followed by the opposite step returns to the start, when neither step crosses the tunnel. */
  lemma StepThenBack(c: Config, pos: Position, dir: Direction, speed: int)
    requires ValidConfig(c)
    requires 0 <= pos.x <= MaxX(c)
    requires 0 <= pos.x + DeltaX(dir) * speed <= MaxX(c)
    ensures GetNextPos(c, GetNextPos(c, pos, dir, speed), Opposite(dir), speed) == pos
  {
  }

  /** The two points checkCollision tests for a move in dir: one pixel
      beyond the leading edge of the tile-sized sprite at pos, inset by
      Padding from each side. None yields no points. */
  function Probes(c: Config, pos: Position, dir: Direction): (ps: seq<Position>)
    requires c.tileSize > 0
    ensures dir == None <==> ps == []
    ensures dir != None ==> |ps| == 2
    ensures forall i :: 0 <= i < |ps| ==>
      (dir == Up ==> ps[i].y == pos.y - SubUnits) &&
      (dir == Down ==> ps[i].y == pos.y + TileUnits(c)) &&
      (dir == Left ==> ps[i].x == pos.x - SubUnits) &&
      (dir == Right ==> ps[i].x == pos.x + TileUnits(c))
    ensures 2 * Padding(c) <= TileUnits(c) ==> forall i :: 0 <= i < |ps| ==>
      (dir == Up || dir == Down ==> pos.x < ps[i].x < pos.x + TileUnits(c)) &&
      (dir == Left || dir == Right ==> pos.y < ps[i].y < pos.y + TileUnits(c))
  {
    var t, p := TileUnits(c), Padding(c);
    match dir
    case Up => [Position(pos.x + p, pos.y - SubUnits), Position(pos.x + t - p, pos.y - SubUnits)]
    case Down => [Position(pos.x + p, pos.y + t), Position(pos.x + t - p, pos.y + t)]
    case Left => [Position(pos.x - SubUnits, pos.y + p), Position(pos.x - SubUnits, pos.y + t - p)]
    case Right => [Position(pos.x + t, pos.y + p), Position(pos.x + t, pos.y + t - p)]
    case None => []
  }

  /** Whether any of the points is a wall (`some` over the test points). */
  function AnyWall(c: Config, maze: array2<TileType>, ps: seq<Position>): (r: bool)
    requires Fits(c, maze)
    reads maze
    ensures r <==> exists i :: 0 <= i < |ps| && IsWall(c, maze, ps[i].x, ps[i].y)
  {
    if ps == [] then false
    else if IsWall(c, maze, ps[0].x, ps[0].y) then true
    else
      var rest := AnyWall(c, maze, ps[1..]);
      assert forall i :: 1 <= i < |ps| ==> ps[i] == ps[1..][i - 1];
      rest
  }

  /** checkCollision: whether moving from pos in dir is blocked by a wall. */
  function CheckCollision(c: Config, maze: array2<TileType>, pos: Position, dir: Direction): (r: bool)
    requires Fits(c, maze)
    reads maze
    ensures dir == None ==> !r
    ensures r <==> exists i :: 0 <= i < |Probes(c, pos, dir)| &&
                              IsWall(c, maze, Probes(c, pos, dir)[i].x, Probes(c, pos, dir)[i].y)
  {
    AnyWall(c, maze, Probes(c, pos, dir))
  }

  /** The tunnel mouths are open: within a pixel of the left border a move
      left is never blocked, and with the sprite's right edge on the right
      border a move right is never blocked. */
  lemma TunnelMouthsOpen(c: Config, maze: array2<TileType>, pos: Position)
    requires Fits(c, maze)
    ensures pos.x < SubUnits ==> !CheckCollision(c, maze, pos, Left)
    ensures pos.x + TileUnits(c) >= c.gridWidth * TileUnits(c) ==> !CheckCollision(c, maze, pos, Right)
  {
    var l, r := Probes(c, pos, Left), Probes(c, pos, Right);
    WallsLieInsideMaze(c, maze, l[0].x, l[0].y);
    WallsLieInsideMaze(c, maze, l[1].x, l[1].y);
    WallsLieInsideMaze(c, maze, r[0].x, r[0].y);
    WallsLieInsideMaze(c, maze, r[1].x, r[1].y);
    if pos.x < SubUnits {
      assert !IsWall(c, maze, l[0].x, l[0].y) && !IsWall(c, maze, l[1].x, l[1].y);
    }
    if pos.x + TileUnits(c) >= c.gridWidth * TileUnits(c) {
      assert !IsWall(c, maze, r[0].x, r[0].y) && !IsWall(c, maze, r[1].x, r[1].y);
    }
  }
}
