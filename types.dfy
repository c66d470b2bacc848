/** The data shapes of the game (types.ts), with the constants the game is
    configured with.

    Coordinates are integers counted in quarter pixels: one pixel is
    `SubUnits` units. In these units the spawn column 13.5 tiles, the speeds
    2, 1.5 and 0.75 pixels per tick and the 1-pixel probe offset are all
    whole numbers, so every position the game can reach is represented
    exactly. */
module Types {

  datatype Direction = Up | Down | Left | Right | None

  /** PAUSED and DYING are declared by the game but never entered. */
  datatype GameStatus = Idle | Playing | Paused | Dying | Won | GameOver

  datatype TileType = Empty | Wall | Pellet | PowerPellet | GhostHouse

  /** A point in quarter pixels. */
  datatype Position = Position(x: int, y: int)

  /** Pac-Man; `speed` is in quarter pixels per tick. */
  datatype Entity = Entity(pos: Position, dir: Direction, nextDir: Direction, speed: int)

  datatype Ghost = Ghost(
    id: string,
    color: string,
    pos: Position,
    dir: Direction,
    nextDir: Direction,
    speed: int,
    isFrightened: bool,
    isEaten: bool)

  datatype GameState = GameState(
    score: int,
    lives: int,
    level: int,
    status: GameStatus,
    powerTimer: int)

  /** One entry of the ghost roster; the start position is in whole tiles. */
  datatype GhostSpec = GhostSpec(id: string, color: string, startX: int, startY: int)

  /** The game's constants: TILE_SIZE (pixels), GRID_WIDTH, GRID_HEIGHT,
      INITIAL_LIVES, POWER_PELLET_DURATION (ticks), MAZE_LAYOUT (rows of
      tiles) and GHOST_DATA. */
  datatype Config = Config(
    tileSize: int,
    gridWidth: int,
    gridHeight: int,
    initialLives: int,
    powerPelletDuration: int,
    layout: seq<seq<TileType>>,
    ghostData: seq<GhostSpec>)

  /** Positive dimensions and a layout of exactly gridHeight rows of gridWidth tiles. */
  predicate ValidConfig(c: Config) {
    c.tileSize > 0 && c.gridWidth > 0 && c.gridHeight > 0 &&
    c.initialLives >= 0 && c.powerPelletDuration >= 0 &&
    |c.layout| == c.gridHeight &&
    forall r :: 0 <= r < |c.layout| ==> |c.layout[r]| == c.gridWidth
  }

  /** Quarter pixels per pixel. */
  const SubUnits := 4

  /** The side of one tile, in quarter pixels. */
  function TileUnits(c: Config): int {
    SubUnits * c.tileSize
  }

  /** The right-most x a position may hold after the tunnel wrap: (GRID_WIDTH - 1) * TILE_SIZE. */
  function MaxX(c: Config): int {
    (c.gridWidth - 1) * TileUnits(c)
  }

  /** The inset of the wall probes from the sprite's sides: ceil(TILE_SIZE / 8) pixels. */
  function Padding(c: Config): int
    requires c.tileSize > 0
  {
    SubUnits * ((c.tileSize + 7) / 8)
  }

  const PacSpeed := 8    // 2 pixels per tick
  const GhostSpeed := 6  // 1.5 pixels per tick

  /** Pelleted tiles: the only ones a pass of Pac-Man changes. */
  predicate IsPellet(t: TileType) {
    t == Pellet || t == PowerPellet
  }

  predicate IsCardinal(d: Direction) {
    d != None
  }

  function Opposite(d: Direction): (r: Direction)
    ensures IsCardinal(r) == IsCardinal(d)
  {
    match d
    case Up => Down
    case Down => Up
    case Left => Right
    case Right => Left
    case None => None
  }
}
