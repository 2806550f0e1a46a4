/** The session-owned game record: the board, the frog's position and the
    life counter, together with the invariant every transition keeps. */
module GameState {

  import opened Board

  const StartX: nat := 0
  const StartY: nat := 1
  const StartLives: nat := 3

  /** `frog_x`, `frog_y` and `lives` are 8-bit unsigned counters. */
  const ByteModulus: nat := 256

  datatype Game = Game(board: Grid, x: nat, y: nat, lives: nat)

  /** The shape every game record has: a 4 x 20 board, the frog's position on
      it, and a life count that fits in a byte. */
  predicate Valid(g: Game)
  {
    g.x < Width && g.y < Height && g.lives < ByteModulus
  }

  /** Every frog marker on the board stands at the recorded position. The
      marker may be missing: an obstacle moving onto the frog overwrites it. */
  predicate FrogTracked(g: Game)
    requires Valid(g)
  {
    forall r, c :: 0 <= r < Height && 0 <= c < Width && g.board[r][c] == Frog ==> r == g.y && c == g.x
  }

  /** The invariant the engine keeps for the whole of a session. */
  predicate Inv(g: Game)
  {
    && Valid(g)
    && EdgesClear(g.board)
    && ColumnsSingle(g.board)
    && FrogTracked(g)
    && g.lives <= StartLives
  }

  /** The session loop keeps going while lives remain and the goal lane is not reached. */
  predicate Running(g: Game)
  {
    g.lives > 0 && g.x < GoalColumn
  }

  datatype Outcome = Win | Lose

  /** The message shown once the loop exits is decided from the frog's column alone. */
  function OutcomeOf(g: Game): Outcome
  {
    if g.x >= GoalColumn then Win else Lose
  }
}
