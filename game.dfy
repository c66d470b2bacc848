/** The running game (App.tsx): the maze grid mutated in place, Pac-Man,
    the ghost list and the session, with the per-frame `update`,
    `startGame` and `resetEntities`. */
module Game {
  import opened Types
  import opened Motion
  import opened Rules

  class Game {
    const cfg: Config
    var maze: array2<TileType>
    var pac: Entity
    var ghosts: seq<Ghost>
    var state: GameState

    /** The object invariant: the maze has the configured shape, one ghost
        per roster entry, a well-formed session, and WON only on a board
        with no pellet left. */
    ghost predicate Valid()
      reads this, maze
    {
      Fits(cfg, maze) && |ghosts| == |cfg.ghostData| && SessionOk(state) &&
      (state.status == Won ==> NoPellets(maze))
    }

    /** The tiles are a fresh copy of the layout template. */
    ghost predicate MazeIsLayout()
      reads this, maze
      requires Fits(cfg, maze)
    {
      forall i, j :: 0 <= i < maze.Length0 && 0 <= j < maze.Length1 ==> maze[i, j] == cfg.layout[i][j]
    }

    /** The game as first shown: IDLE, a full maze, everyone at spawn. */
    constructor (c: Config)
      requires ValidConfig(c)
      ensures Valid() && cfg == c && fresh(maze) && MazeIsLayout()
      ensures state == GameState(0, c.initialLives, 1, Idle, 0)
      ensures pac == SpawnPac(c) && ghosts == SpawnGhosts(c)
    {
      cfg := c;
      maze := new TileType[c.gridHeight, c.gridWidth]((i, j)
        requires 0 <= i < c.gridHeight && 0 <= j < c.gridWidth => c.layout[i][j]);
      pac := SpawnPac(c);
      ghosts := SpawnGhosts(c);
      state := GameState(0, c.initialLives, 1, Idle, 0);
    }

    /** resetEntities: Pac-Man and every ghost back to their spawn; the maze
        and the session are untouched. */
    method ResetEntities()
      modifies this`pac, this`ghosts
      ensures pac == SpawnPac(cfg) && ghosts == SpawnGhosts(cfg)
    {
      pac := SpawnPac(cfg);
      ghosts := SpawnGhosts(cfg);
    }

    /** startGame: a fresh copy of the layout, a new PLAYING session and
        everyone at spawn, whatever the game was doing before. */
    method StartGame()
      requires Valid()
      modifies this
      ensures Valid() && fresh(maze) && MazeIsLayout()
      ensures state == NewSession(cfg)
      ensures pac == SpawnPac(cfg) && ghosts == SpawnGhosts(cfg)
    {
      maze := new TileType[cfg.gridHeight, cfg.gridWidth]((i, j)
        requires 0 <= i < cfg.gridHeight && 0 <= j < cfg.gridWidth => cfg.layout[i][j]);
      state := NewSession(cfg);
      ResetEntities();
    }

    /** A direction key: buffers the requested heading for the next tick. */
    method SetNextDir(d: Direction)
      modifies this`pac
      ensures pac == old(pac).(nextDir := d)
    {
      pac := pac.(nextDir := d);
    }

    /** Pac-Man turns if he may and moves if he can. */
    method MovePacMan()
      requires Fits(cfg, maze)
      modifies this`pac
      ensures pac == StepPac(cfg, maze, old(pac))
    {
      var dir := pac.dir;
      if pac.nextDir != None && !CheckCollision(cfg, maze, pac.pos, pac.nextDir) {
        dir := pac.nextDir;
      }
      pac := pac.(dir := dir);
      if !CheckCollision(cfg, maze, pac.pos, pac.dir) {
        pac := pac.(pos := GetNextPos(cfg, pac.pos, pac.dir, pac.speed));
      }
    }

    /** Every ghost not yet eaten becomes frightened. */
    method FrightenGhosts()
      modifies this`ghosts
      ensures ghosts == ArmGhosts(old(ghosts), PowerPellet)
    {
      var i := 0;
      while i < |ghosts|
        invariant 0 <= i <= |ghosts| == |old(ghosts)|
        invariant forall k :: 0 <= k < i ==> ghosts[k] == Frighten(old(ghosts)[k])
        invariant forall k :: i <= k < |ghosts| ==> ghosts[k] == old(ghosts)[k]
      {
        if !ghosts[i].isEaten {
          ghosts := ghosts[i := ghosts[i].(isFrightened := true)];
        }
        i := i + 1;
      }
      assert ghosts == ArmGhosts(old(ghosts), PowerPellet);
    }

    /** Every ghost loses its frightened and eaten flags. */
    method CalmGhosts()
      modifies this`ghosts
      ensures ghosts == SettleGhosts(old(ghosts), 0)
    {
      var i := 0;
      while i < |ghosts|
        invariant 0 <= i <= |ghosts| == |old(ghosts)|
        invariant forall k :: 0 <= k < i ==> ghosts[k] == Calm(old(ghosts)[k])
        invariant forall k :: i <= k < |ghosts| ==> ghosts[k] == old(ghosts)[k]
      {
        ghosts := ghosts[i := ghosts[i].(isFrightened := false, isEaten := false)];
        i := i + 1;
      }
      assert ghosts == SettleGhosts(old(ghosts), 0);
    }

    /** The tile under Pac-Man's centre is eaten: a pellet or power pellet
        becomes EMPTY and scores 10 or 50, a power pellet re-arms the timer
        and frightens the ghosts not yet eaten, and otherwise the timer
        counts down. When the centre lies outside the grid (above or below
        it, or right of it from a spawn column past the last one) nothing
        happens and `inGrid` is false. */
    method EatUnderPacMan() returns (inGrid: bool)
      requires Fits(cfg, maze) && SessionOk(state)
      modifies maze, this`state, this`ghosts
      ensures var col, row := CentreCol(cfg, pac.pos), CentreRow(cfg, pac.pos);
        inGrid == InGrid(cfg, col, row) &&
        (!inGrid ==> unchanged(maze) && state == old(state) && ghosts == old(ghosts)) &&
        (inGrid ==>
          var tile := old(maze[row, col]);
          maze[row, col] == Eaten(tile) &&
          (forall i, j :: 0 <= i < maze.Length0 && 0 <= j < maze.Length1 && (i != row || j != col) ==>
             maze[i, j] == old(maze[i, j])) &&
          state == old(state).(score := old(state).score + PelletPoints(tile),
                               powerTimer := NextPowerTimer(tile, old(state).powerTimer, cfg.powerPelletDuration)) &&
          ghosts == ArmGhosts(old(ghosts), tile))
    {
      var col, row := CentreCol(cfg, pac.pos), CentreRow(cfg, pac.pos);
      if !InGrid(cfg, col, row) {
        return false;
      }
      var tile := maze[row, col];
      if tile == Pellet || tile == PowerPellet {
        maze[row, col] := Empty;
        var timer := if tile == PowerPellet then cfg.powerPelletDuration
                     else if state.powerTimer - 1 > 0 then state.powerTimer - 1 else 0;
        if tile == PowerPellet {
          FrightenGhosts();
        }
        state := state.(score := state.score + PelletPoints(tile), powerTimer := timer);
      } else {
        state := state.(powerTimer := if state.powerTimer - 1 > 0 then state.powerTimer - 1 else 0);
      }
      return true;
    }

    /** The ghosts' loop: each ghost of gs in turn moves and meets Pac-Man at
        `at`, and the session collects every contact's outcome. Returns the
        ghosts after their turns, the session after the contacts, and
        whether a contact cost a life with lives to spare. */
    method TakeGhostTurns(at: Position, gs: seq<Ghost>, rolls: seq<GhostRoll>, st: GameState)
      returns (out: seq<Ghost>, session: GameState, lost: bool)
      requires Fits(cfg, maze) && |rolls| == |gs| && RollsOk(rolls)
      ensures Sweep(out, session, lost) == SweepGhosts(cfg, maze, at, gs, rolls, st)
    {
      out, session, lost := gs, st, false;
      var i := 0;
      while i < |out|
        invariant 0 <= i <= |out| == |gs|
        invariant forall k :: i <= k < |out| ==> out[k] == gs[k]
        invariant Sweep(out[..i], session, lost) == SweepGhosts(cfg, maze, at, gs[..i], rolls[..i], st)
      {
        var t := GhostTurn(cfg, maze, at, out[i], rolls[i], session);
        SweepExtend(cfg, maze, at, gs, rolls, st, i, out[..i], session, lost);
        assert out[i := t.g][..i + 1] == out[..i] + [t.g];
        out := out[i := t.g];
        session := t.state;
        lost := lost || t.lifeLost;
        i := i + 1;
      }
      assert out[..i] == out && gs[..i] == gs && rolls[..i] == rolls;
    }

    /** The ghosts take their turns against Pac-Man where he now stands. If
        any contact cost a life with lives to spare, Pac-Man and the ghosts
        are back at spawn afterwards. */
    method MoveGhosts(rolls: seq<GhostRoll>)
      requires Fits(cfg, maze) && |rolls| == |ghosts| && RollsOk(rolls)
      modifies this`ghosts, this`state, this`pac
      ensures var s := old(SweepGhosts(cfg, maze, pac.pos, ghosts, rolls, state));
        state == s.state &&
        (s.lifeLost ==> pac == SpawnPac(cfg) && ghosts == SpawnGhosts(cfg)) &&
        (!s.lifeLost ==> pac == old(pac) && ghosts == s.ghosts)
    {
      var out, session, lost := TakeGhostTurns(pac.pos, ghosts, rolls, state);
      ghosts, state := out, session;
      if lost {
        ResetEntities();
      }
    }

    /** The rest of a frame once Pac-Man's centre is on the board: when the
        power timer reads 0 every ghost is calmed, the ghosts take their
        turns, and a board without pellets makes the game WON. */
    method FinishTick(rolls: seq<GhostRoll>)
      requires Fits(cfg, maze) && |ghosts| == |cfg.ghostData| && SessionOk(state)
      requires state.status == Playing && |rolls| == |ghosts| && RollsOk(rolls)
      modifies this`ghosts, this`state, this`pac
      ensures Valid()
      ensures state.score >= old(state).score && state.lives <= old(state).lives
      ensures state.level == old(state).level && state.powerTimer == old(state).powerTimer
      ensures state.lives == old(state).lives ==> pac == old(pac)
      ensures pac == old(pac) || pac == SpawnPac(cfg)
      ensures state.status == Won <==> NoPellets(maze)
      ensures var s := SweepGhosts(cfg, maze, old(pac.pos), SettleGhosts(old(ghosts), old(state).powerTimer), rolls, old(state));
        state == (if NoPellets(maze) then s.state.(status := Won) else s.state) &&
        (s.lifeLost ==> pac == SpawnPac(cfg) && ghosts == SpawnGhosts(cfg)) &&
        (!s.lifeLost ==> pac == old(pac) && ghosts == s.ghosts)
    {
      if state.powerTimer == 0 {
        CalmGhosts();
      }
      ghost var at, gs, st := pac.pos, ghosts, state;
      MoveGhosts(rolls);
      SweepSession(cfg, maze, at, gs, rolls, st);
      if PelletCount(maze) == 0 {
        state := state.(status := Won);
      }
    }

    /** The rest of a PLAYING frame once Pac-Man has moved. The tile under
        his centre is eaten and the power timer advances; if his centre is
        outside the grid the frame ends there. Otherwise the ghosts' flags
        are settled (Flags), the ghosts take their turns (SweepGhosts), a
        contact that cost a life with lives to spare puts everyone back at
        spawn, and a board without pellets makes the game WON. The ghost
        results only name, for the postconditions, the tile that was under his centre, the session once it
        was eaten, and the ghosts as they set out on their turns. */
    method EatAndFinish(rolls: seq<GhostRoll>) returns (ghost tile: TileType, ghost eaten: GameState, ghost flagged: seq<Ghost>)
      requires Valid() && state.status == Playing && |rolls| == |ghosts| && RollsOk(rolls)
      modifies this`pac, this`ghosts, this`state, maze
      ensures Valid()
      ensures state.score >= old(state).score && state.lives <= old(state).lives
      ensures state.level == old(state).level
      ensures pac == old(pac) || pac == SpawnPac(cfg)
      ensures state.lives == old(state).lives ==> pac == old(pac)
      ensures !InGrid(cfg, CentreCol(cfg, old(pac).pos), CentreRow(cfg, old(pac).pos)) ==>
                pac == old(pac) && state == old(state) && ghosts == old(ghosts) && unchanged(maze)
      ensures var col, row := CentreCol(cfg, old(pac).pos), CentreRow(cfg, old(pac).pos);
              InGrid(cfg, col, row) ==>
                tile == old(maze[row, col]) && maze[row, col] == Eaten(tile) &&
                eaten == old(state).(score := old(state).score + PelletPoints(tile),
                                     powerTimer := NextPowerTimer(tile, old(state).powerTimer, cfg.powerPelletDuration)) &&
                flagged == Flags(old(ghosts), tile, old(state).powerTimer, cfg.powerPelletDuration)
      ensures forall i, j ::
                0 <= i < maze.Length0 && 0 <= j < maze.Length1 &&
                (i != CentreRow(cfg, old(pac).pos) || j != CentreCol(cfg, old(pac).pos))
                ==> maze[i, j] == old(maze[i, j])
      ensures InGrid(cfg, CentreCol(cfg, old(pac).pos), CentreRow(cfg, old(pac).pos)) ==>
                var s := SweepGhosts(cfg, maze, old(pac).pos, flagged, rolls, eaten);
                state == (if NoPellets(maze) then s.state.(status := Won) else s.state) &&
                (s.lifeLost ==> pac == SpawnPac(cfg) && ghosts == SpawnGhosts(cfg)) &&
                (!s.lifeLost ==> pac == old(pac) && ghosts == s.ghosts)
    {
      var col, row := CentreCol(cfg, pac.pos), CentreRow(cfg, pac.pos);
      var inGrid := EatUnderPacMan();
      tile, eaten, flagged := Empty, state, ghosts;
      if inGrid {
        tile := old(maze[row, col]);
        eaten := state;
        flagged := SettleGhosts(ghosts, state.powerTimer);
        FinishTick(rolls);
      }
    }

    /** One PLAYING frame: Pac-Man turns and moves as StepPac says, then the
        frame goes on as EatAndFinish says from where he now stands. The
        ghost results only name intermediate values for the postconditions. */
    method PlayFrame(rolls: seq<GhostRoll>) returns (ghost tile: TileType, ghost eaten: GameState, ghost flagged: seq<Ghost>)
      requires Valid() && state.status == Playing && |rolls| == |ghosts| && RollsOk(rolls)
      modifies this`pac, this`ghosts, this`state, maze
      ensures Valid()
      ensures state.score >= old(state).score && state.lives <= old(state).lives
      ensures state.level == old(state).level
      ensures pac == old(StepPac(cfg, maze, pac)) || pac == SpawnPac(cfg)
      ensures state.lives == old(state).lives ==> pac == old(StepPac(cfg, maze, pac))
      ensures var moved := old(StepPac(cfg, maze, pac));
              !InGrid(cfg, CentreCol(cfg, moved.pos), CentreRow(cfg, moved.pos)) ==>
                pac == moved && state == old(state) && ghosts == old(ghosts) && unchanged(maze)
      ensures var moved := old(StepPac(cfg, maze, pac));
              var col, row := CentreCol(cfg, moved.pos), CentreRow(cfg, moved.pos);
              InGrid(cfg, col, row) ==>
                tile == old(maze[row, col]) && maze[row, col] == Eaten(tile) &&
                eaten == old(state).(score := old(state).score + PelletPoints(tile),
                                     powerTimer := NextPowerTimer(tile, old(state).powerTimer, cfg.powerPelletDuration)) &&
                flagged == Flags(old(ghosts), tile, old(state).powerTimer, cfg.powerPelletDuration)
      ensures var moved := old(StepPac(cfg, maze, pac));
              forall i, j ::
                0 <= i < maze.Length0 && 0 <= j < maze.Length1 &&
                (i != CentreRow(cfg, moved.pos) || j != CentreCol(cfg, moved.pos))
                ==> maze[i, j] == old(maze[i, j])
      ensures var moved := old(StepPac(cfg, maze, pac));
              InGrid(cfg, CentreCol(cfg, moved.pos), CentreRow(cfg, moved.pos)) ==>
                var s := SweepGhosts(cfg, maze, moved.pos, flagged, rolls, eaten);
                state == (if NoPellets(maze) then s.state.(status := Won) else s.state) &&
                (s.lifeLost ==> pac == SpawnPac(cfg) && ghosts == SpawnGhosts(cfg)) &&
                (!s.lifeLost ==> pac == moved && ghosts == s.ghosts)
    {
      MovePacMan();
      tile, eaten, flagged := EatAndFinish(rolls);
    }

    /** update: one frame of the game, a no-op unless the game is PLAYING,
        and otherwise the frame PlayFrame describes. The ghost results only
        name PlayFrame's intermediate values for the postconditions. */
    method Update(rolls: seq<GhostRoll>) returns (ghost tile: TileType, ghost eaten: GameState, ghost flagged: seq<Ghost>)
      requires Valid() && |rolls| == |ghosts| && RollsOk(rolls)
      modifies this, maze
      ensures Valid() && maze == old(maze)
      ensures state.score >= old(state).score && state.lives <= old(state).lives
      ensures state.level == old(state).level
      ensures old(state).status != Playing ==>
                state == old(state) && pac == old(pac) && ghosts == old(ghosts) && unchanged(maze)
      ensures old(state).status == Playing ==>
                (pac == old(StepPac(cfg, maze, pac)) || pac == SpawnPac(cfg)) &&
                (state.lives == old(state).lives ==> pac == old(StepPac(cfg, maze, pac)))
      ensures var moved := old(StepPac(cfg, maze, pac));
              old(state).status == Playing && !InGrid(cfg, CentreCol(cfg, moved.pos), CentreRow(cfg, moved.pos)) ==>
                pac == moved && state == old(state) && ghosts == old(ghosts) && unchanged(maze)
      ensures var moved := old(StepPac(cfg, maze, pac));
              var col, row := CentreCol(cfg, moved.pos), CentreRow(cfg, moved.pos);
              old(state).status == Playing && InGrid(cfg, col, row) ==>
                tile == old(maze[row, col]) && maze[row, col] == Eaten(tile) &&
                eaten == old(state).(score := old(state).score + PelletPoints(tile),
                                     powerTimer := NextPowerTimer(tile, old(state).powerTimer, cfg.powerPelletDuration)) &&
                flagged == Flags(old(ghosts), tile, old(state).powerTimer, cfg.powerPelletDuration)
      ensures var moved := old(StepPac(cfg, maze, pac));
              old(state).status == Playing ==>
              forall i, j ::
                0 <= i < maze.Length0 && 0 <= j < maze.Length1 &&
                (i != CentreRow(cfg, moved.pos) || j != CentreCol(cfg, moved.pos))
                ==> maze[i, j] == old(maze[i, j])
      ensures var moved := old(StepPac(cfg, maze, pac));
              old(state).status == Playing && InGrid(cfg, CentreCol(cfg, moved.pos), CentreRow(cfg, moved.pos)) ==>
                var s := SweepGhosts(cfg, maze, moved.pos, flagged, rolls, eaten);
                state == (if NoPellets(maze) then s.state.(status := Won) else s.state) &&
                (s.lifeLost ==> pac == SpawnPac(cfg) && ghosts == SpawnGhosts(cfg)) &&
                (!s.lifeLost ==> pac == moved && ghosts == s.ghosts)
    {
      if state.status != Playing {
        tile, eaten, flagged := Empty, state, ghosts;
        return;
      }
      tile, eaten, flagged := PlayFrame(rolls);
    }
  }
}
