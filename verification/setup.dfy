/** Board setup at the start of a session: clear the board, fill the interior
    columns greedily with obstacles, then place the frog and reset the lives.
    The library random generator is replaced by a supplied sequence of rolls:
    roll k is the value the k-th call to the generator returned. */
module Setup {

  import opened Board
  import opened GameState

  const NumUp: nat := 10
  const NumDown: nat := 7

  /** The closed form of the greedy fill: the cell value placement leaves at
      (r, c) when the fill starts at column `col` with quotas `up` and `down`.
      The k-th column from `col` receives the k-th roll's row, with an
      up-obstacle while the up quota lasts and a down-obstacle after it. */
  function Placed(b: Grid, col: nat, up: nat, down: nat, rolls: seq<nat>, r: nat, c: nat): Cell
    requires 0 <= r < Height && 0 <= c < Width && |rolls| >= up + down
  {
    if col <= c < GoalColumn && c - col < up + down && r == rolls[c - col] % Height then
      (if c - col < up then ObstacleUp else ObstacleDown)
    else b[r][c]
  }

  /** Walks the columns from `col` up to the goal lane (exclusive). Each
      column takes an up-obstacle while the up quota lasts, then a
      down-obstacle while the down quota lasts, then nothing; each placement
      consumes one roll, reduced modulo the board height. */
  function PlaceObstacles(b: Grid, col: nat, up: nat, down: nat, rolls: seq<nat>): (b': Grid)
    requires 1 <= col <= GoalColumn && |rolls| >= up + down
    ensures forall r, c :: 0 <= r < Height && 0 <= c < Width && (c < col || c == GoalColumn) ==> b'[r][c] == b[r][c]
    decreases GoalColumn - col
  {
    if col == GoalColumn then b
    else if up > 0 then
      PlaceObstacles(Set(b, rolls[0] % Height, col, ObstacleUp), col + 1, up - 1, down, rolls[1..])
    else if down > 0 then
      PlaceObstacles(Set(b, rolls[0] % Height, col, ObstacleDown), col + 1, up, down - 1, rolls[1..])
    else
      PlaceObstacles(b, col + 1, up, down, rolls)
  }

  /** The greedy fill agrees cell by cell with its closed form. */
  lemma {:induction false} PlaceObstaclesLayout(b: Grid, col: nat, up: nat, down: nat, rolls: seq<nat>)
    requires 1 <= col <= GoalColumn && |rolls| >= up + down
    ensures forall r, c :: 0 <= r < Height && 0 <= c < Width ==>
      PlaceObstacles(b, col, up, down, rolls)[r][c] == Placed(b, col, up, down, rolls, r, c)
    decreases GoalColumn - col
  {
    if col == GoalColumn {
    } else if up > 0 {
      var b1 := Set(b, rolls[0] % Height, col, ObstacleUp);
      PlaceObstaclesLayout(b1, col + 1, up - 1, down, rolls[1..]);
      forall r, c | 0 <= r < Height && 0 <= c < Width
        ensures PlaceObstacles(b, col, up, down, rolls)[r][c] == Placed(b, col, up, down, rolls, r, c)
      {
        if col + 1 <= c < GoalColumn && c - (col + 1) < up - 1 + down {
          assert rolls[1..][c - (col + 1)] == rolls[c - col];
        }
      }
    } else if down > 0 {
      var b1 := Set(b, rolls[0] % Height, col, ObstacleDown);
      PlaceObstaclesLayout(b1, col + 1, up, down - 1, rolls[1..]);
      forall r, c | 0 <= r < Height && 0 <= c < Width
        ensures PlaceObstacles(b, col, up, down, rolls)[r][c] == Placed(b, col, up, down, rolls, r, c)
      {
        if col + 1 <= c < GoalColumn && c - (col + 1) < up + down - 1 {
          assert rolls[1..][c - (col + 1)] == rolls[c - col];
        }
      }
    } else {
      PlaceObstaclesLayout(b, col + 1, up, down, rolls);
    }
  }

  /** The cell value setup leaves at (r, c): the frog at the start cell, an
      up-obstacle in column c of 1..10 at the row of roll c - 1, a
      down-obstacle likewise in columns 11..17, and nothing anywhere else. */
  function SetupCell(rolls: seq<nat>, r: nat, c: nat): Cell
    requires |rolls| >= NumUp + NumDown
  {
    if r == StartY && c == StartX then Frog
    else if 1 <= c <= NumUp && r == rolls[c - 1] % Height then ObstacleUp
    else if NumUp < c <= NumUp + NumDown && r == rolls[c - 1] % Height then ObstacleDown
    else Empty
  }

  /** Setup: clear the board, place 10 up-obstacles in columns 1..10 and 7
      down-obstacles in columns 11..17 (column 18 stays empty), put the frog
      at column 0, row 1, and give it 3 lives. */
  function InitGame(rolls: seq<nat>): (g: Game)
    requires |rolls| >= NumUp + NumDown
    ensures Valid(g)
    ensures g.x == 0 && g.y == 1 && g.lives == 3
    ensures forall r, c :: 0 <= r < Height && 0 <= c < Width ==> g.board[r][c] == SetupCell(rolls, r, c)
  {
    var placed := PlaceObstacles(Blank(), 1, NumUp, NumDown, rolls);
    PlaceObstaclesLayout(Blank(), 1, NumUp, NumDown, rolls);
    Game(Set(placed, StartY, StartX, Frog), StartX, StartY, StartLives)
  }

  /** Every interior column but the last receives exactly one obstacle, of
      the kind its position calls for: column k + 1 takes the k-th roll's row.
      Columns 0, 18 and 19 receive none. */
  lemma InitGameColumns(rolls: seq<nat>)
    requires |rolls| >= NumUp + NumDown
    ensures forall k :: 0 <= k < NumUp ==>
      SoleObstacle(InitGame(rolls).board, k + 1, rolls[k] % Height)
      && InitGame(rolls).board[rolls[k] % Height][k + 1] == ObstacleUp
    ensures forall k :: NumUp <= k < NumUp + NumDown ==>
      SoleObstacle(InitGame(rolls).board, k + 1, rolls[k] % Height)
      && InitGame(rolls).board[rolls[k] % Height][k + 1] == ObstacleDown
    ensures NoObstacle(InitGame(rolls).board, 0)
    ensures NoObstacle(InitGame(rolls).board, 18)
    ensures NoObstacle(InitGame(rolls).board, 19)
  {
    forall k | 0 <= k < NumUp {
      InitGameColumn(rolls, k);
    }
    forall k | NumUp <= k < NumUp + NumDown {
      InitGameColumn(rolls, k);
    }
    InitGameClearColumn(rolls, 0);
    InitGameClearColumn(rolls, 18);
    InitGameClearColumn(rolls, 19);
  }

  /** Columns outside 1..17 receive no obstacle. */
  lemma InitGameClearColumn(rolls: seq<nat>, c: nat)
    requires |rolls| >= NumUp + NumDown && c < Width && !(1 <= c <= NumUp + NumDown)
    ensures NoObstacle(InitGame(rolls).board, c)
  {
    var g := InitGame(rolls);
    forall r | 0 <= r < Height
      ensures !IsObstacle(g.board[r][c])
    {
      assert g.board[r][c] == SetupCell(rolls, r, c);
    }
  }

  /** Column k + 1 holds the single obstacle placed with roll k. */
  lemma InitGameColumn(rolls: seq<nat>, k: nat)
    requires |rolls| >= NumUp + NumDown && k < NumUp + NumDown
    ensures SoleObstacle(InitGame(rolls).board, k + 1, rolls[k] % Height)
    ensures InitGame(rolls).board[rolls[k] % Height][k + 1] == if k < NumUp then ObstacleUp else ObstacleDown
  {
    var g := InitGame(rolls);
    var c, j := k + 1, rolls[k] % Height;
    assert g.board[j][c] == SetupCell(rolls, j, c);
    forall r | 0 <= r < Height && r != j
      ensures !IsObstacle(g.board[r][c])
    {
      assert g.board[r][c] == SetupCell(rolls, r, c);
    }
  }

  /** Setup establishes the session invariant: exactly one frog marker, at
      the start cell, and a clear start and goal lane. */
  lemma InitGameSatisfiesInv(rolls: seq<nat>)
    requires |rolls| >= NumUp + NumDown
    ensures Inv(InitGame(rolls))
    ensures Running(InitGame(rolls))
    ensures InitGame(rolls).board[StartY][StartX] == Frog
  {
    var g := InitGame(rolls);
    forall c | 0 <= c < Width
      ensures AtMostOneObstacle(g.board, c)
    {
      if 1 <= c <= NumUp + NumDown {
        InitGameColumn(rolls, c - 1);
      } else {
        InitGameClearColumn(rolls, c);
      }
    }
    InitGameClearColumn(rolls, 0);
    InitGameClearColumn(rolls, GoalColumn);
    forall r, c | 0 <= r < Height && 0 <= c < Width && g.board[r][c] == Frog
      ensures r == g.y && c == g.x
    {
      assert g.board[r][c] == SetupCell(rolls, r, c);
    }
  }
}
