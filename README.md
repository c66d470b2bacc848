# Pac-Man tick simulation in Dafny

This project models the fixed-step game simulation of a browser Pac-Man
(`App.tsx`, over the data shapes of `types.ts`) and proves what each step of
it does. The model covers:

- the tile lookup `isWall`;
- the motion step `getNextPos` with its horizontal tunnel;
- the two-probe wall test `checkCollision`;
- the per-frame `update`: Pac-Man's turn and move, eating the tile under his
  centre, the power timer, calming the ghosts, the ghosts' random walk,
  contact with Pac-Man, and the WON check;
- `startGame` and `resetEntities`.

Files and modules:

- `types.dfy` (module `Types`): the datatypes of `types.ts`, and the game's
  constants gathered in a `Config` value.
- `motion.dfy` (module `Motion`): `isWall`, `getNextPos` and
  `checkCollision` as pure functions of the configuration and the maze.
- `rules.dfy` (module `Rules`): one frame's rules as functions, and lemmas
  about them:
  - `StepPac` for Pac-Man;
  - `PelletPoints`, `Eaten` and `NextPowerTimer` for eating a tile;
  - `ArmGhosts`, `SettleGhosts` and `Flags` for the ghosts' flags;
  - `MoveGhost`, `Collide` and `SweepGhosts` for the ghosts' loop;
  - `PelletCount` for the WON check.
- `game.dfy` (module `Game`): the class `Game`, holding:
  - the maze as an `array2<TileType>` that is eaten in place;
  - Pac-Man;
  - the ghost list;
  - the session.

  Its methods carry out `update` (`Update`, `PlayFrame` and the phases they
  call), `startGame` and `resetEntities`. Each method is proved against the
  functions of `Rules`.

Modelling decisions:

- **Units.** Coordinates are integers in quarter pixels, so these are exact:
  - Pac-Man's spawn column of 13.5 tiles;
  - the speeds of 2, 1.5 and 0.75 pixels per tick;
  - the 1-pixel probe offset.

  JavaScript's `Math.floor(x / TILE_SIZE)` is Dafny's `x / (4 * TILE_SIZE)`.
- **Contact distance.** `Math.sqrt(dx² + dy²) < 0.8 * TILE_SIZE` becomes a
  comparison of squares. The lemma `TouchingWithinReach` ties this to the
  real-valued test.
- **Constants.** The game's constants become fields of a `Config` value:
  - `TILE_SIZE`, `GRID_WIDTH`, `GRID_HEIGHT`;
  - `INITIAL_LIVES`, `POWER_PELLET_DURATION`;
  - `MAZE_LAYOUT`, `GHOST_DATA`.

  `ValidConfig` states their shape and sign.
- **Randomness.** Each call to `Math.random` becomes a value the caller
  supplies, both in [0, 1). For each ghost in each frame, a `GhostRoll`
  holds:
  - `swerve`: the ghost keeps its heading when it exceeds 0.05;
  - `pick`: the chosen open direction is `floor(pick * n)`.
- **Order of state updates.** Every state update of a frame takes effect at
  once, in the order the code issues them. In particular:
  - The check that calms the ghosts reads the power timer as this frame
    leaves it. See "## Findings".
  - A contact that costs a life with lives to spare does not stop the loop.
    The remaining ghosts still take their turns against Pac-Man's position
    before the reset, and their outcomes add up.
  - Pac-Man and the ghosts return to spawn after the loop.
- **Eaten ghosts** still move and turn, exactly like the others, as the loop
  in `App.tsx:185-193` does. They are only left out of the outcomes of a
  contact (`App.tsx:198`, `App.tsx:201`).
- **Early return.** When Pac-Man's centre is outside the grid, the frame
  ends right after his move (`App.tsx:157`). The timer, the ghosts and the
  WON check are skipped. This happens only when his centre row lies above or
  below the grid, or when his x lies beyond the range `getNextPos` keeps it
  in (a spawn column past the last one). The horizontal tunnel never
  triggers it: `getNextPos` keeps x in [0, (GRID_WIDTH-1)*TILE_SIZE], so the
  centre column stays in the grid (`Rules.CentreColInGrid`).

Some facts about `App.tsx` that the model keeps as they are:

- Nothing advances the level after WON; the status just stays WON.
- POWER_PELLET_DURATION and the ghosts' speed do not depend on the level.
- Eaten ghosts keep moving (`App.tsx:185-193`).
- The ghosts are calmed on every frame whose timer reads 0, not only on the
  frame where the timer reaches 0 (`App.tsx:180-182`).

## Model

| member | source | states |
|---|---|---|
| Motion.IsWall | App.tsx:109-114 | a wall is reported only for a point whose tile lies inside the GRID_WIDTH x GRID_HEIGHT grid, and inside the grid exactly when that tile is WALL |
| Motion.WallsLieInsideMaze | App.tsx:109-114 | every point outside the maze's rectangle of tiles is open, which is what lets the tunnel wrap |
| Motion.WrapX | App.tsx:123-127 | the wrapped x lies in [0, (GRID_WIDTH-1)*TILE_SIZE]; below 0 goes to the right edge, beyond the right edge goes to 0, anything in range is kept |
| Motion.GetNextPos | App.tsx:116-128 | the step moves y by exactly the direction's vertical component times speed (no vertical wrap), and x by the horizontal one and then through the tunnel wrap; NONE leaves an in-range position unchanged |
| Motion.StepMovesOneAxis | App.tsx:116-121 | a cardinal step changes exactly one coordinate by exactly speed (before the wrap); NONE changes neither |
| Motion.StepThenBack | App.tsx:116-127 | a step followed by the opposite step returns to the start, when neither step crosses the tunnel |
| Motion.Probes | App.tsx:131-136 | NONE yields no test point, a cardinal direction exactly two, one pixel beyond the sprite's leading edge, inset from both sides when 2*padding fits in a tile |
| Motion.CheckCollision | App.tsx:130-139 | false for NONE; for a cardinal direction, true exactly when one of the two leading-edge probes lands on a wall |
| Motion.TunnelMouthsOpen | App.tsx:109-139 | a move left within a pixel of the left border, or right with the sprite's right edge on the right border, is never blocked |
| Rules.CentreColInGrid | App.tsx:155-157 | a sprite whose x lies in [0, (GRID_WIDTH-1)*TILE_SIZE], the range getNextPos keeps it in, has its centre in a column of the grid, so the tunnel never triggers the early return |
| Rules.StepPac | App.tsx:145-152 | Pac-Man takes nextDir exactly when it is not NONE and unblocked, and keeps dir otherwise; he advances along his new heading when it is unblocked and stays put when it is blocked; nextDir and speed are kept |
| Rules.PelletPoints | App.tsx:161-164 | a tile scores a positive amount exactly when it holds a pellet: 10 for PELLET, 50 for POWER_PELLET |
| Rules.Eaten | App.tsx:161-162 | no pellet is left on an eaten tile, and a tile without a pellet is kept |
| Rules.PelletScoredOnce | App.tsx:155-164 | an eaten tile is worth nothing, eating it again changes nothing, and a pellet tile becomes EMPTY |
| Rules.NextPowerTimer | App.tsx:165-176 | the timer never goes negative: a power pellet sets it to POWER_PELLET_DURATION, otherwise it drops by one down to a floor of 0 |
| Rules.Frighten | App.tsx:167-171 | a ghost not yet eaten becomes frightened and nothing else changes; an eaten ghost is untouched |
| Rules.Calm | App.tsx:180-182 | the ghost is neither frightened nor eaten afterwards, and nothing else about it changes |
| Rules.PowerPelletFrightens | App.tsx:165-171 | with a positive duration, a power pellet leaves every ghost exactly as Frighten makes it, so every ghost not yet eaten is frightened, whatever the timer read before |
| Rules.TimerExpiryCalms | App.tsx:165-182 | the timer reaches 0 exactly on a frame without a power pellet whose timer read at most 1, and then every ghost is calmed; otherwise the flags are kept |
| Rules.PowerPelletVoidAsWritten | App.tsx:163-182 | with the expiry check reading the timer the frame started with, a power pellet eaten while that timer is 0 leaves every ghost calm |
| Rules.PelletCount | App.tsx:217-218 | the number of PELLET and POWER_PELLET tiles on the board is 0 exactly when no tile holds a pellet |
| Rules.Unblocked | App.tsx:191 | the kept directions are exactly those of the list that are not blocked, and never more than the list |
| Rules.UnblockedInOrder | App.tsx:190-192 | the kept directions appear in the order of the list, as `filter` keeps them, so the order UP, DOWN, LEFT, RIGHT decides which direction a given pick selects |
| Rules.OpenDirs | App.tsx:190-191 | at most four directions, exactly the cardinal ones not blocked from the ghost's position |
| Rules.PickIndex | App.tsx:192 | floor(random * n) is a valid index into a list of n directions |
| Rules.MoveGhost | App.tsx:185-193 | only position and heading change; with its heading open and a swerve draw above 0.05 the ghost advances at its speed (halved when frightened); otherwise it stays where it is and takes an unblocked direction, or NONE exactly when none is open |
| Rules.TouchingWithinReach | App.tsx:196-197 | the integer contact test Touching holds exactly when the squared distance is below (0.8 * TILE_SIZE)² |
| Rules.Collide | App.tsx:195-213 | out of reach or eaten: nothing changes; frightened and not eaten: the ghost is eaten for 200 points; otherwise with lives > 1 a life is lost and a reset is due; otherwise lives become 0 and the game is over |
| Rules.GhostTurn | App.tsx:185-213 | a turn moves the ghost as MoveGhost does and changes nothing else but its eaten flag, which afterwards is set exactly when the ghost was already eaten, or was frightened and touches Pac-Man at its new position |
| Rules.SweepGhosts | App.tsx:185-214 | the loop yields one ghost for each ghost it was given |
| Rules.SweepSession | App.tsx:185-214 | across the loop the score never drops, lives never rise and stay non-negative, level and timer are kept, the status can only become GAME_OVER and then with no life left, and a reset is due only after a life was lost |
| Rules.SweepScore | App.tsx:198-200 | the loop scores exactly 200 for each ghost it eats, and nothing else |
| Rules.TurnLegal | App.tsx:185-199 | one ghost's turn is legal: only position, heading and eaten flag change; it advanced along its unblocked heading or stayed and took an unblocked direction (NONE exactly when none is open); and it is eaten afterwards exactly when it was eaten before, or was frightened and touches Pac-Man at its new position |
| Rules.SweepTurnLegal | App.tsx:185-199 | the turn the loop gives ghost i is legal in the sense of LegalTurn, whatever the later ghosts do |
| Rules.SweepTurnsLegal | App.tsx:185-199 | every ghost's turn is legal: only position, heading and eaten flag change; it either advanced along its unblocked heading or stayed and took an unblocked direction (NONE exactly when none is open); and it is eaten afterwards exactly when it was eaten before, or was frightened and touches Pac-Man at its new position |
| Rules.EatenGhostsHarmless | App.tsx:198-201 | when every ghost is eaten the loop leaves the session exactly as it was and loses no life |
| Rules.ArmGhosts | App.tsx:167-171 | a power pellet frightens each ghost as Frighten says; any other tile keeps the ghost list |
| Rules.SettleGhosts | App.tsx:180-182 | a timer reading 0 calms each ghost; any other reading keeps the ghost list |
| Rules.SpawnPac | App.tsx:58-63 | Pac-Man spawns at column 13.5, row 23, facing NONE with no buffered turn, at 2 pixels per tick |
| Rules.SpawnGhost | App.tsx:64-72 | a ghost spawns on its start tile with its id and colour, heading UP with no buffered turn, at 1.5 pixels per tick, neither frightened nor eaten |
| Rules.SpawnGhosts | App.tsx:64-72 | one spawned ghost per GHOST_DATA entry, in order |
| Rules.NewSession | App.tsx:77-83 | a new session has score 0, INITIAL_LIVES lives, level 1, status PLAYING and power timer 0 |
| Game.Game.constructor | App.tsx:24-54 | the game starts IDLE with score 0, INITIAL_LIVES lives and level 1, a fresh copy of the layout, and Pac-Man and the ghosts at spawn |
| Game.Game.ResetEntities | App.tsx:57-73 | Pac-Man and every ghost are back at spawn |
| Game.Game.StartGame | App.tsx:75-87 | whatever the game was doing, the maze becomes a fresh copy of the layout, the session becomes a new PLAYING one, and everyone is at spawn; the invariant is kept |
| Game.Game.SetNextDir | App.tsx:101-107 | the requested heading is buffered in nextDir and nothing else changes |
| Game.Game.MovePacMan | App.tsx:144-152 | Pac-Man becomes StepPac of himself |
| Game.Game.FrightenGhosts | App.tsx:167-171 | the ghost list becomes ArmGhosts of the old one for a power pellet |
| Game.Game.CalmGhosts | App.tsx:180-182 | every ghost is calmed |
| Game.Game.EatUnderPacMan | App.tsx:154-177 | outside the grid nothing changes; inside it, exactly the tile under Pac-Man's centre is eaten, the score grows by its points, the timer advances as NextPowerTimer says, and the ghosts are armed by a power pellet |
| Game.Game.TakeGhostTurns | App.tsx:185-214 | the loop over the ghosts computes exactly SweepGhosts |
| Game.Game.MoveGhosts | App.tsx:185-214 | the session becomes the loop's outcome; after a lost life with lives to spare everyone is at spawn, otherwise Pac-Man is unchanged and the ghosts are the loop's ghosts |
| Game.Game.FinishTick | App.tsx:179-223 | calms the ghosts when the timer reads 0, runs the loop and sets WON exactly when no pellet is left; the score never drops, lives never rise, Pac-Man is only ever moved back to spawn, and the invariant is kept |
| Game.Game.EatAndFinish | App.tsx:154-223 | from where Pac-Man stands: outside the grid nothing changes; inside it the tile under his centre is eaten and every other tile is kept, the session is scored and its timer advanced, the ghosts' flags become Flags of the old ghosts (calmed when the new timer reads 0), the ghosts' loop runs as SweepGhosts from there, a lost life with lives to spare puts everyone back at spawn, and the status is WON exactly when no pellet is left; the score never drops, lives never rise and the invariant is kept |
| Game.Game.PlayFrame | App.tsx:144-223 | a PLAYING frame: Pac-Man takes StepPac, and the frame goes on from his new position exactly as EatAndFinish states (only the tile under his new centre can change) |
| Game.Game.Update | App.tsx:141-224 | a no-op unless PLAYING; a PLAYING frame is exactly the one PlayFrame states (Pac-Man's step, the tile eaten and no other, the ghosts' loop, the reset and the WON check); the score never drops, lives never rise, the level is kept, Pac-Man either took his step or is back at spawn, and the invariant (non-negative score, lives and timer, GAME_OVER only with no life left, WON only on a board without pellets) is kept |

## Left out

- The canvas drawing, the JSX and the on-screen buttons are not modelled. They only read the state.
- The `requestAnimationFrame` loop that calls `update` is not modelled. Frames are the caller's calls to `Update`.
- Audio is not modelled (`services/audioService.ts`).
- The commentary and tip requests are not modelled (`fetchCommentary`, `fetchNewTip`, `services/geminiService.ts`). They are network calls with no effect on the simulation; the WON and GAME_OVER transitions are modelled without them.
- Key handling is reduced to `SetNextDir`. The mapping of arrow-key names to directions is DOM event capture.
- `constants.ts` is not part of this model. Its constants are fields of `Config`, and the model is proved for every configuration `ValidConfig` admits.
- Floating point is not modelled. Positions are exact quarter pixels and the distance test compares squares.
- Rules.MoveSpeed: halves the speed with integer division. This is exact for every speed the game assigns (1.5 pixels is 6 quarter pixels), but not for an odd speed, which the game never uses.
- Rules.SpawnGhost: takes GHOST_DATA start positions in whole tiles, because the roster is not visible here.
- Rules.PickIndex: does not state that the choice is uniform. Only the range of the chosen index is proved.
- React's deferred state updates are not modelled. Updates take effect at once, in the order they are issued (see the decisions above), as a synchronously applied updater does; with deferred updaters a power pellet would frighten the ghosts one frame later.
- The PAUSED and DYING statuses are declared but never entered by the code. No operation of the model enters them.

## Findings

| source | as written | input that shows it | evidently intended | confidence | as-written member | corrected member |
|---|---|---|---|---|---|---|
| App.tsx:163-182 | the check that calms the ghosts reads `gameState.powerTimer`, the timer the frame started with; when React applies the power pellet's state updater synchronously, as a legacy root does for an update outside an event handler, the ghosts it has just frightened are calmed again; App.tsx does not show which root is used, and with a deferred updater the ghosts are instead frightened one frame late and the void does not happen | a POWER_PELLET eaten while the power timer reads 0: every ghost comes out calm, and the timer then runs with no ghost frightened | the check reads the timer this frame leaves, so a power pellet frightens every ghost not yet eaten | medium; not executed; depends on React applying the updater synchronously | Rules.FlagsAsWritten, Rules.PowerPelletVoidAsWritten | Rules.Flags, Rules.PowerPelletFrightens, Game.Game.PlayFrame |
