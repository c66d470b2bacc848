/** The rules one tick of `update` applies (App.tsx), stated as functions of
    the maze and the entities: Pac-Man's turn-and-move, eating the tile under
    his centre, the power timer, the ghosts' movement policy, contact with
    Pac-Man, and the remaining-pellet count. The Game class runs them in
    order, in place. */
module Rules {
  import opened Types
  import opened Motion

  // ---------------------------------------------------------------- Pac-Man

  /** Pac-Man's move for one tick: the buffered nextDir is adopted when it is
      a real direction and unblocked; then he advances along his heading
      unless that heading is blocked, in which case he stays put. */
  function StepPac(c: Config, maze: array2<TileType>, pac: Entity): (r: Entity)
    requires Fits(c, maze)
    reads maze
    ensures r.nextDir == pac.nextDir && r.speed == pac.speed
    ensures r.dir == pac.nextDir || r.dir == pac.dir
    ensures r.dir != pac.dir ==> pac.nextDir != None && !CheckCollision(c, maze, pac.pos, pac.nextDir)
    ensures pac.nextDir != None && !CheckCollision(c, maze, pac.pos, pac.nextDir) ==> r.dir == pac.nextDir
    ensures !CheckCollision(c, maze, pac.pos, r.dir) ==> r.pos == GetNextPos(c, pac.pos, r.dir, pac.speed)
    ensures CheckCollision(c, maze, pac.pos, r.dir) ==> r.pos == pac.pos
  {
    var dir := if pac.nextDir != None && !CheckCollision(c, maze, pac.pos, pac.nextDir)
               then pac.nextDir else pac.dir;
    var pos := if !CheckCollision(c, maze, pac.pos, dir)
               then GetNextPos(c, pac.pos, dir, pac.speed) else pac.pos;
    pac.(dir := dir, pos := pos)
  }

  /** The column of the tile under the centre of a sprite at pos. */
  function CentreCol(c: Config, pos: Position): int
    requires c.tileSize > 0
  {
    Cell(c, pos.x + TileUnits(c) / 2)
  }

  /** A sprite whose x lies in the range GetNextPos keeps it in has its
      centre in a column of the grid: the horizontal tunnel never takes
      Pac-Man's centre off the grid. */
  lemma CentreColInGrid(c: Config, pos: Position)
    requires c.tileSize > 0 && 0 <= pos.x <= MaxX(c)
    ensures 0 <= CentreCol(c, pos) < c.gridWidth
  {
    var t := TileUnits(c);
    assert c.gridWidth * t == MaxX(c) + t;
    CellInRange(pos.x + t / 2, t, c.gridWidth);
  }

  /** The row of the tile under the centre of a sprite at pos. */
  function CentreRow(c: Config, pos: Position): int
    requires c.tileSize > 0
  {
    Cell(c, pos.y + TileUnits(c) / 2)
  }

  // ---------------------------------------------------------------- pellets

  /** The points a tile is worth when Pac-Man's centre reaches it. */
  function PelletPoints(t: TileType): (n: nat)
    ensures n > 0 <==> IsPellet(t)
    ensures t == Pellet ==> n == 10
    ensures t == PowerPellet ==> n == 50
  {
    match t
    case Pellet => 10
    case PowerPellet => 50
    case _ => 0
  }

  /** What is left of a tile once Pac-Man's centre has been on it. */
  function Eaten(t: TileType): (r: TileType)
    ensures !IsPellet(r)
    ensures !IsPellet(t) ==> r == t
  {
    if IsPellet(t) then Empty else t
  }

  /** A pellet is scored at most once: a tile that was eaten is worth
      nothing, and eating it again changes nothing. */
  lemma PelletScoredOnce(t: TileType)
    ensures PelletPoints(Eaten(t)) == 0
    ensures Eaten(Eaten(t)) == Eaten(t)
    ensures IsPellet(t) ==> Eaten(t) == Empty
  {
  }

  /** The power timer after a tick whose centre tile was t: a power pellet
      re-arms it to POWER_PELLET_DURATION; otherwise it counts down, never
      below 0. */
  function NextPowerTimer(t: TileType, timer: int, duration: int): (r: int)
    requires duration >= 0
    ensures r >= 0
    ensures t == PowerPellet ==> r == duration
    ensures t != PowerPellet && timer > 0 ==> r == timer - 1
    ensures t != PowerPellet && timer <= 0 ==> r == 0
  {
    if t == PowerPellet then duration
    else if timer - 1 > 0 then timer - 1 else 0
  }

  /** A power pellet frightens a ghost unless it has already been eaten. */
  function Frighten(g: Ghost): (r: Ghost)
    ensures g.isEaten ==> r == g
    ensures !g.isEaten ==> r.isFrightened && r == g.(isFrightened := true)
  {
    if g.isEaten then g else g.(isFrightened := true)
  }

  /** Once the power timer reads 0 a ghost is neither frightened nor eaten. */
  function Calm(g: Ghost): (r: Ghost)
    ensures !r.isFrightened && !r.isEaten
    ensures r.(isFrightened := g.isFrightened, isEaten := g.isEaten) == g
  {
    g.(isFrightened := false, isEaten := false)
  }

  /** The ghosts once the tile under Pac-Man has been eaten: a power pellet
      frightens every ghost not yet eaten, any other tile leaves them be. */
  function ArmGhosts(gs: seq<Ghost>, tile: TileType): (r: seq<Ghost>)
    ensures |r| == |gs|
    ensures forall i :: 0 <= i < |r| ==> r[i] == if tile == PowerPellet then Frighten(gs[i]) else gs[i]
    decreases |gs|
  {
    if tile != PowerPellet || gs == [] then gs
    else ArmGhosts(gs[..|gs| - 1], tile) + [Frighten(gs[|gs| - 1])]
  }

  /** The ghosts once the power timer has been looked at: a timer reading 0
      calms every ghost, any other reading leaves them be. */
  function SettleGhosts(gs: seq<Ghost>, timer: int): (r: seq<Ghost>)
    ensures |r| == |gs|
    ensures forall i :: 0 <= i < |r| ==> r[i] == if timer == 0 then Calm(gs[i]) else gs[i]
    decreases |gs|
  {
    if timer != 0 || gs == [] then gs
    else SettleGhosts(gs[..|gs| - 1], timer) + [Calm(gs[|gs| - 1])]
  }

  /** The ghosts' flags before they move, as update computes them: the
      expiry check reads gameState.powerTimer, the timer the frame started
      with, after the power pellet's update has frightened the ghosts. */
  function FlagsAsWritten(gs: seq<Ghost>, tile: TileType, timerBefore: int): (r: seq<Ghost>)
    ensures |r| == |gs|
  {
    SettleGhosts(ArmGhosts(gs, tile), timerBefore)
  }

  /** The ghosts' flags before they move, with the expiry check reading the
      timer this frame leaves, which is what the rest of the model does. */
  function Flags(gs: seq<Ghost>, tile: TileType, timerBefore: int, duration: int): (r: seq<Ghost>)
    requires duration >= 0
    ensures |r| == |gs|
  {
    SettleGhosts(ArmGhosts(gs, tile), NextPowerTimer(tile, timerBefore, duration))
  }

  /** As written, a power pellet eaten while the timer reads 0 frightens
      nobody: every ghost comes out calm and not eaten. */
  lemma PowerPelletVoidAsWritten(gs: seq<Ghost>)
    ensures forall i :: 0 <= i < |gs| ==>
              !FlagsAsWritten(gs, PowerPellet, 0)[i].isFrightened && !FlagsAsWritten(gs, PowerPellet, 0)[i].isEaten
  {
  }

  /** With the check reading the new timer, a power pellet (with a positive
      POWER_PELLET_DURATION) frightens every ghost not yet eaten, whatever the
      timer read before, and changes nothing else about any ghost. */
  lemma PowerPelletFrightens(gs: seq<Ghost>, timer: int, duration: int)
    requires duration > 0
    ensures |Flags(gs, PowerPellet, timer, duration)| == |gs|
    ensures forall i :: 0 <= i < |gs| ==> Flags(gs, PowerPellet, timer, duration)[i] == Frighten(gs[i])
    ensures forall i :: 0 <= i < |gs| && !gs[i].isEaten ==> Flags(gs, PowerPellet, timer, duration)[i].isFrightened
  {
  }

  /** The frame the timer reaches 0 calms every ghost; while it is still
      running, or when a power pellet re-arms it, nobody is calmed. */
  lemma TimerExpiryCalms(gs: seq<Ghost>, tile: TileType, timer: int, duration: int)
    requires duration > 0 && timer >= 0
    ensures NextPowerTimer(tile, timer, duration) == 0 <==> tile != PowerPellet && timer <= 1
    ensures tile != PowerPellet && timer <= 1 ==>
              forall i :: 0 <= i < |gs| ==> Flags(gs, tile, timer, duration)[i] == Calm(gs[i])
    ensures tile != PowerPellet && timer > 1 ==> Flags(gs, tile, timer, duration) == gs
  {
  }

  /** The number of pellets and power pellets in the first n tiles of a row. */
  function RowPellets(maze: array2<TileType>, row: int, n: int): nat
    requires 0 <= row < maze.Length0 && 0 <= n <= maze.Length1
    reads maze
    decreases n
  {
    if n == 0 then 0
    else RowPellets(maze, row, n - 1) + (if IsPellet(maze[row, n - 1]) then 1 else 0)
  }

  /** The number of pellets and power pellets in the first k rows. */
  function RowsPellets(maze: array2<TileType>, k: int): nat
    requires 0 <= k <= maze.Length0
    reads maze
    decreases k
  {
    if k == 0 then 0 else RowsPellets(maze, k - 1) + RowPellets(maze, k - 1, maze.Length1)
  }

  predicate NoPellets(maze: array2<TileType>)
    reads maze
  {
    forall i, j :: 0 <= i < maze.Length0 && 0 <= j < maze.Length1 ==> !IsPellet(maze[i, j])
  }

  lemma {:induction false} RowPelletsZero(maze: array2<TileType>, row: int, n: int)
    requires 0 <= row < maze.Length0 && 0 <= n <= maze.Length1
    ensures RowPellets(maze, row, n) == 0 <==> forall j :: 0 <= j < n ==> !IsPellet(maze[row, j])
  {
    if n > 0 {
      RowPelletsZero(maze, row, n - 1);
    }
  }

  lemma {:induction false} RowsPelletsZero(maze: array2<TileType>, k: int)
    requires 0 <= k <= maze.Length0
    ensures RowsPellets(maze, k) == 0 <==>
            forall i, j :: 0 <= i < k && 0 <= j < maze.Length1 ==> !IsPellet(maze[i, j])
  {
    if k > 0 {
      RowsPelletsZero(maze, k - 1);
      RowPelletsZero(maze, k - 1, maze.Length1);
    }
  }

  /** The pellets still on the board (the flattened maze filtered to
      pellets and power pellets); zero exactly when none is left. */
  function PelletCount(maze: array2<TileType>): (n: nat)
    reads maze
    ensures n == 0 <==> NoPellets(maze)
  {
    RowsPelletsZero(maze, maze.Length0);
    RowsPellets(maze, maze.Length0)
  }

  // ----------------------------------------------------------------- ghosts

  /** The two random draws a ghost may make in one tick, each in [0, 1):
      `swerve` decides whether it keeps its heading, `pick` which open
      direction it takes otherwise. */
  datatype GhostRoll = GhostRoll(swerve: real, pick: real)

  predicate RollOk(roll: GhostRoll) {
    0.0 <= roll.swerve < 1.0 && 0.0 <= roll.pick < 1.0
  }

  predicate RollsOk(rolls: seq<GhostRoll>) {
    forall i :: 0 <= i < |rolls| ==> RollOk(rolls[i])
  }

  /** A ghost whose way ahead is open keeps its heading when its swerve draw exceeds 0.05. */
  predicate KeepsHeading(roll: GhostRoll) {
    roll.swerve > 0.05
  }

  /** The cardinal directions, in the order a ghost considers them. */
  const Cardinals: seq<Direction> := [Up, Down, Left, Right]

  /** The directions of ds that are not blocked from pos, in order. */
  function Unblocked(c: Config, maze: array2<TileType>, pos: Position, ds: seq<Direction>): (r: seq<Direction>)
    requires Fits(c, maze)
    reads maze
    ensures |r| <= |ds|
    ensures forall d :: d in r <==> d in ds && !CheckCollision(c, maze, pos, d)
  {
    if ds == [] then []
    else
      var rest := Unblocked(c, maze, pos, ds[1..]);
      if CheckCollision(c, maze, pos, ds[0]) then rest else [ds[0]] + rest
  }

  /** r is ds with some entries dropped and the rest kept in their order. */
  predicate Subsequence(r: seq<Direction>, ds: seq<Direction>)
    decreases |ds|
  {
    if ds == [] then r == []
    else (r != [] && r[0] == ds[0] && Subsequence(r[1..], ds[1..])) || Subsequence(r, ds[1..])
  }

  /** Unblocked keeps the directions in the order ds lists them, which is
      what decides the direction a given pick selects. */
  lemma {:induction false} UnblockedInOrder(c: Config, maze: array2<TileType>, pos: Position, ds: seq<Direction>)
    requires Fits(c, maze)
    ensures Subsequence(Unblocked(c, maze, pos, ds), ds)
  {
    if ds != [] {
      var r := Unblocked(c, maze, pos, ds);
      UnblockedInOrder(c, maze, pos, ds[1..]);
      if !CheckCollision(c, maze, pos, ds[0]) {
        assert r[1..] == Unblocked(c, maze, pos, ds[1..]);
      }
    }
  }

  /** The cardinal directions a ghost at pos may take. */
  function OpenDirs(c: Config, maze: array2<TileType>, pos: Position): (r: seq<Direction>)
    requires Fits(c, maze)
    reads maze
    ensures |r| <= 4
    ensures forall d :: d in r <==> IsCardinal(d) && !CheckCollision(c, maze, pos, d)
  {
    Unblocked(c, maze, pos, Cardinals)
  }

  /** floor(pick * n): an index of a list of n entries, each drawn for a pick in an interval of length 1/n. */
  function PickIndex(pick: real, n: int): (k: int)
    requires 0.0 <= pick < 1.0 && n > 0
    ensures 0 <= k < n
  {
    var scaled := pick * (n as real);
    assert 0.0 <= scaled < n as real by {
      assert scaled == pick * (n as real);
      assert (1.0 - pick) * (n as real) > 0.0;
    }
    scaled.Floor
  }

  /** A frightened ghost moves at half its speed. */
  function MoveSpeed(g: Ghost): int {
    if g.isFrightened then g.speed / 2 else g.speed
  }

  /** A ghost's move for one tick. It advances along its heading when that is
      open and the swerve draw says keep; otherwise it stays where it is and
      takes one of the open cardinal directions, or None when all four are
      blocked. Its flags are untouched, and eaten ghosts move like the rest. */
  function MoveGhost(c: Config, maze: array2<TileType>, g: Ghost, roll: GhostRoll): (r: Ghost)
    requires Fits(c, maze) && RollOk(roll)
    reads maze
    ensures r == g.(pos := r.pos, dir := r.dir)
    ensures !CheckCollision(c, maze, g.pos, g.dir) && KeepsHeading(roll) ==>
              r == g.(pos := GetNextPos(c, g.pos, g.dir, MoveSpeed(g)))
    ensures CheckCollision(c, maze, g.pos, g.dir) || !KeepsHeading(roll) ==>
              r.pos == g.pos &&
              (r.dir == None <==> OpenDirs(c, maze, g.pos) == []) &&
              (r.dir != None ==> !CheckCollision(c, maze, g.pos, r.dir))
  {
    if !CheckCollision(c, maze, g.pos, g.dir) && KeepsHeading(roll) then
      g.(pos := GetNextPos(c, g.pos, g.dir, MoveSpeed(g)))
    else
      var open := OpenDirs(c, maze, g.pos);
      if open == [] then g.(dir := None)
      else
        var dir := open[PickIndex(roll.pick, |open|)];
        assert dir in open;
        g.(dir := dir)
  }

  /** Whether two sprites overlap: their distance is below 0.8 * TILE_SIZE,
      compared on squares in whole numbers (see TouchingWithinReach). */
  function Touching(c: Config, a: Position, b: Position): bool
    requires c.tileSize > 0
  {
    var dx, dy := a.x - b.x, a.y - b.y;
    25 * (dx * dx + dy * dy) < 256 * c.tileSize * c.tileSize
  }

  /** The whole-number test is the source's: in quarter pixels,
      25 * d^2 < 256 * TILE_SIZE^2 holds exactly when d^2 < (0.8 * TILE_SIZE)^2. */
  lemma TouchingWithinReach(c: Config, a: Position, b: Position)
    requires c.tileSize > 0
    ensures var dx, dy, reach := a.x - b.x, a.y - b.y, 0.8 * (TileUnits(c) as real);
            Touching(c, a, b) <==> ((dx * dx + dy * dy) as real) < reach * reach
  {
  }

  /** The outcome of one ghost meeting Pac-Man: the ghost afterwards, the
      session afterwards, and whether a life was lost with lives to spare
      (which resets the entities). */
  datatype Contact = Contact(g: Ghost, state: GameState, lifeLost: bool)

  /** Contact between Pac-Man and a ghost. A frightened ghost that is not yet
      eaten is eaten for 200 points; any other ghost that is not eaten costs
      a life, and the last life ends the game; an eaten ghost, or one out of
      reach, changes nothing. */
  function Collide(st: GameState, g: Ghost, touching: bool): (r: Contact)
    ensures !touching || g.isEaten ==> r == Contact(g, st, false)
    ensures touching && g.isFrightened && !g.isEaten ==>
              r == Contact(g.(isEaten := true), st.(score := st.score + 200), false)
    ensures touching && !g.isFrightened && !g.isEaten && st.lives > 1 ==>
              r == Contact(g, st.(lives := st.lives - 1), true)
    ensures touching && !g.isFrightened && !g.isEaten && st.lives <= 1 ==>
              r == Contact(g, st.(lives := 0, status := GameOver), false)
  {
    if !touching then Contact(g, st, false)
    else if g.isFrightened && !g.isEaten then Contact(g.(isEaten := true), st.(score := st.score + 200), false)
    else if !g.isEaten then
      if st.lives > 1 then Contact(g, st.(lives := st.lives - 1), true)
      else Contact(g, st.(lives := 0, status := GameOver), false)
    else Contact(g, st, false)
  }

  /** One ghost's turn: it moves, then meets Pac-Man at pacPos. */
  function GhostTurn(c: Config, maze: array2<TileType>, pacPos: Position, g: Ghost, roll: GhostRoll, st: GameState): (r: Contact)
    requires Fits(c, maze) && RollOk(roll)
    reads maze
    ensures r.g == MoveGhost(c, maze, g, roll).(isEaten := r.g.isEaten)
    ensures r.g.isEaten == (g.isEaten || (g.isFrightened && Touching(c, pacPos, r.g.pos)))
  {
    var m := MoveGhost(c, maze, g, roll);
    Collide(st, m, Touching(c, pacPos, m.pos))
  }

  /** The ghosts after their turns, the session after all contacts, and whether any contact lost a life. */
  datatype Sweep = Sweep(ghosts: seq<Ghost>, state: GameState, lifeLost: bool)

  /** All ghosts take their turns in order, each seeing the session the previous turns left. */
  function SweepGhosts(c: Config, maze: array2<TileType>, pacPos: Position, gs: seq<Ghost>,
                       rolls: seq<GhostRoll>, st: GameState): (r: Sweep)
    requires Fits(c, maze) && |rolls| == |gs| && RollsOk(rolls)
    reads maze
    ensures |r.ghosts| == |gs|
    decreases |gs|
  {
    if gs == [] then Sweep([], st, false)
    else
      var n := |gs| - 1;
      var prev := SweepGhosts(c, maze, pacPos, gs[..n], rolls[..n], st);
      var t := GhostTurn(c, maze, pacPos, gs[n], rolls[n], prev.state);
      Sweep(prev.ghosts + [t.g], t.state, prev.lifeLost || t.lifeLost)
  }

  /** One more turn extends the sweep: if (done, session, lost) is the sweep
      over the first i ghosts, adding ghost i's turn gives the sweep over the
      first i + 1. */
  lemma SweepExtend(c: Config, maze: array2<TileType>, pacPos: Position, gs: seq<Ghost>,
                    rolls: seq<GhostRoll>, st: GameState, i: int,
                    done: seq<Ghost>, session: GameState, lost: bool)
    requires Fits(c, maze) && |rolls| == |gs| && RollsOk(rolls) && 0 <= i < |gs|
    requires Sweep(done, session, lost) == SweepGhosts(c, maze, pacPos, gs[..i], rolls[..i], st)
    ensures var t := GhostTurn(c, maze, pacPos, gs[i], rolls[i], session);
            SweepGhosts(c, maze, pacPos, gs[..i + 1], rolls[..i + 1], st) ==
              Sweep(done + [t.g], t.state, lost || t.lifeLost)
  {
    var gs', rolls' := gs[..i + 1], rolls[..i + 1];
    assert gs'[..i] == gs[..i] && rolls'[..i] == rolls[..i];
    assert gs'[i] == gs[i] && rolls'[i] == rolls[i];
  }

  /** What the sweep may do to the session: the score never drops, lives
      never rise and stay non-negative, the level and timer stay, the status
      can only turn to GAME_OVER and then no life is left, and a reset is
      only ever caused by a lost life. */
  lemma {:induction false} SweepSession(c: Config, maze: array2<TileType>, pacPos: Position, gs: seq<Ghost>,
                                         rolls: seq<GhostRoll>, st: GameState)
    requires Fits(c, maze) && |rolls| == |gs| && RollsOk(rolls)
    requires st.lives >= 0
    ensures var r := SweepGhosts(c, maze, pacPos, gs, rolls, st);
      r.state.score >= st.score && 0 <= r.state.lives <= st.lives &&
      r.state.level == st.level && r.state.powerTimer == st.powerTimer &&
      (r.state.status == st.status || (r.state.status == GameOver && r.state.lives == 0)) &&
      (r.lifeLost ==> r.state.lives < st.lives)
  {
    if gs != [] {
      var n := |gs| - 1;
      SweepSession(c, maze, pacPos, gs[..n], rolls[..n], st);
    }
  }

  /** The number of ghosts that are eaten in `after` but were not in `before`. */
  function NewlyEaten(before: seq<Ghost>, after: seq<Ghost>): nat
    requires |before| == |after|
    decreases |before|
  {
    if before == [] then 0
    else
      var n := |before| - 1;
      NewlyEaten(before[..n], after[..n]) + (if !before[n].isEaten && after[n].isEaten then 1 else 0)
  }

  /** Every ghost eaten during the sweep is worth exactly 200 points, and the
      sweep scores nothing else. */
  lemma {:induction false} SweepScore(c: Config, maze: array2<TileType>, pacPos: Position, gs: seq<Ghost>,
                                       rolls: seq<GhostRoll>, st: GameState)
    requires Fits(c, maze) && |rolls| == |gs| && RollsOk(rolls)
    ensures var r := SweepGhosts(c, maze, pacPos, gs, rolls, st);
      r.state.score == st.score + 200 * NewlyEaten(gs, r.ghosts)
  {
    if gs != [] {
      var n := |gs| - 1;
      var r := SweepGhosts(c, maze, pacPos, gs, rolls, st);
      var prev := SweepGhosts(c, maze, pacPos, gs[..n], rolls[..n], st);
      SweepScore(c, maze, pacPos, gs[..n], rolls[..n], st);
      assert r.ghosts[..n] == prev.ghosts;
    }
  }

  /** A ghost's turn as the policy allows it: only its position, heading and
      eaten flag change; it either advanced along its open heading, or stayed
      and took an open direction (None only when none is open); and it is
      eaten afterwards exactly when it already was, or was frightened and
      ended its move within reach of Pac-Man at pacPos. */
  predicate LegalTurn(c: Config, maze: array2<TileType>, pacPos: Position, before: Ghost, after: Ghost)
    requires Fits(c, maze)
    reads maze
  {
    after == before.(pos := after.pos, dir := after.dir, isEaten := after.isEaten) &&
    (after.isEaten <==> before.isEaten || (before.isFrightened && Touching(c, pacPos, after.pos))) &&
    ((after.dir == before.dir && !CheckCollision(c, maze, before.pos, before.dir) &&
      after.pos == GetNextPos(c, before.pos, before.dir, MoveSpeed(before))) ||
     (after.pos == before.pos &&
      (after.dir == None <==> OpenDirs(c, maze, before.pos) == []) &&
      (after.dir != None ==> !CheckCollision(c, maze, before.pos, after.dir))))
  }

  /** A single ghost's turn is legal. */
  lemma TurnLegal(c: Config, maze: array2<TileType>, pacPos: Position, g: Ghost, roll: GhostRoll, st: GameState)
    requires Fits(c, maze) && RollOk(roll)
    ensures LegalTurn(c, maze, pacPos, g, GhostTurn(c, maze, pacPos, g, roll, st).g)
  {
  }

  /** Ghost i's turn in the sweep is a legal one: the later turns leave the
      ghost it produced in place. */
  lemma {:induction false} SweepTurnLegal(c: Config, maze: array2<TileType>, pacPos: Position, gs: seq<Ghost>,
                                           rolls: seq<GhostRoll>, st: GameState, i: int)
    requires Fits(c, maze) && |rolls| == |gs| && RollsOk(rolls) && 0 <= i < |gs|
    ensures LegalTurn(c, maze, pacPos, gs[i], SweepGhosts(c, maze, pacPos, gs, rolls, st).ghosts[i])
    decreases |gs|
  {
    var n := |gs| - 1;
    var prev := SweepGhosts(c, maze, pacPos, gs[..n], rolls[..n], st);
    if i == n {
      TurnLegal(c, maze, pacPos, gs[n], rolls[n], prev.state);
    } else {
      SweepTurnLegal(c, maze, pacPos, gs[..n], rolls[..n], st, i);
      assert gs[..n][i] == gs[i];
    }
  }

  /** Every ghost's turn in the sweep is a legal one. */
  lemma SweepTurnsLegal(c: Config, maze: array2<TileType>, pacPos: Position, gs: seq<Ghost>,
                        rolls: seq<GhostRoll>, st: GameState)
    requires Fits(c, maze) && |rolls| == |gs| && RollsOk(rolls)
    ensures var r := SweepGhosts(c, maze, pacPos, gs, rolls, st);
      forall i :: 0 <= i < |gs| ==> LegalTurn(c, maze, pacPos, gs[i], r.ghosts[i])
  {
    forall i | 0 <= i < |gs|
      ensures LegalTurn(c, maze, pacPos, gs[i], SweepGhosts(c, maze, pacPos, gs, rolls, st).ghosts[i])
    {
      SweepTurnLegal(c, maze, pacPos, gs, rolls, st, i);
    }
  }

  /** Eaten ghosts are intangible: when every ghost is eaten the sweep
      leaves the session exactly as it was and loses no life. */
  lemma {:induction false} EatenGhostsHarmless(c: Config, maze: array2<TileType>, pacPos: Position, gs: seq<Ghost>,
                                                rolls: seq<GhostRoll>, st: GameState)
    requires Fits(c, maze) && |rolls| == |gs| && RollsOk(rolls)
    requires forall i :: 0 <= i < |gs| ==> gs[i].isEaten
    ensures var r := SweepGhosts(c, maze, pacPos, gs, rolls, st);
      r.state == st && !r.lifeLost
  {
    if gs != [] {
      var n := |gs| - 1;
      EatenGhostsHarmless(c, maze, pacPos, gs[..n], rolls[..n], st);
    }
  }

  // ---------------------------------------------------------------- spawning

  /** Pac-Man's spawn: column 13.5, row 23, facing nowhere, 2 pixels per tick. */
  function SpawnPac(c: Config): (e: Entity)
    ensures 2 * e.pos.x == 27 * TileUnits(c) && e.pos.y == 23 * TileUnits(c)
    ensures e.dir == None && e.nextDir == None && e.speed == PacSpeed
  {
    Entity(Position(54 * c.tileSize, 92 * c.tileSize), None, None, PacSpeed)
  }

  /** A ghost's spawn from its roster entry: on its start tile, heading up,
      1.5 pixels per tick, neither frightened nor eaten. */
  function SpawnGhost(c: Config, s: GhostSpec): (g: Ghost)
    ensures g.id == s.id && g.color == s.color
    ensures g.pos == Position(s.startX * TileUnits(c), s.startY * TileUnits(c))
    ensures g.dir == Up && g.nextDir == None && g.speed == GhostSpeed
    ensures !g.isFrightened && !g.isEaten
  {
    Ghost(s.id, s.color, Position(s.startX * TileUnits(c), s.startY * TileUnits(c)), Up, None, GhostSpeed, false, false)
  }

  /** The whole roster spawned, one ghost per GHOST_DATA entry, in order. */
  function SpawnGhosts(c: Config): (gs: seq<Ghost>)
    ensures |gs| == |c.ghostData|
    ensures forall i :: 0 <= i < |gs| ==> gs[i] == SpawnGhost(c, c.ghostData[i])
  {
    seq(|c.ghostData|, i requires 0 <= i < |c.ghostData| => SpawnGhost(c, c.ghostData[i]))
  }

  // ---------------------------------------------------------------- session

  /** The session a new game starts with. */
  function NewSession(c: Config): (st: GameState)
    ensures st.score == 0 && st.lives == c.initialLives && st.level == 1
    ensures st.status == Playing && st.powerTimer == 0
  {
    GameState(0, c.initialLives, 1, Playing, 0)
  }

  /** What holds of the session at every tick: non-negative score, lives and
      timer, level 1 or more, only the four reachable statuses, and no life
      left once the game is over. */
  predicate SessionOk(st: GameState) {
    st.score >= 0 && st.lives >= 0 && st.level >= 1 && st.powerTimer >= 0 &&
    (st.status == Idle || st.status == Playing || st.status == Won || st.status == GameOver) &&
    (st.status == GameOver ==> st.lives == 0)
  }
}
