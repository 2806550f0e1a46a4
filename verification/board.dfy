/** The 4 x 20 game board: its cell values, its dimensions and the layout
    invariants the rest of the engine keeps. Rows are indexed top to bottom
    (`y`, 0..3) and columns left to right (`x`, 0..19). Column 0 is the start
    lane and column 19 the goal lane. */
module Board {

  const Height: nat := 4
  const Width: nat := 20

  /** The rightmost column; reaching it wins the session. */
  const GoalColumn: nat := Width - 1

  /** The lowest row. */
  const BottomRow: nat := Height - 1

  /** The four values a board cell ever holds. */
  datatype Cell = Empty | ObstacleUp | ObstacleDown | Frog

  /** The character each cell value is stored and displayed as. */
  function Glyph(v: Cell): char
  {
    match v
    case Empty => ' '
    case ObstacleUp => '^'
    case ObstacleDown => 'V'
    case Frog => '*'
  }

  /** Distinct cell values are stored as distinct characters, so the board
      of characters and the board of cell values determine each other. */
  lemma GlyphInjective(a: Cell, b: Cell)
    ensures Glyph(a) == Glyph(b) <==> a == b
  {
  }

  predicate IsObstacle(v: Cell)
  {
    v == ObstacleUp || v == ObstacleDown
  }

  /** A board row: one cell per column. */
  type Row = r: seq<Cell> | |r| == Width witness seq(20, _ => Empty)

  /** A board as a sequence of rows, top to bottom. */
  type Grid = b: seq<Row> | |b| == Height witness seq(4, _ => seq(20, _ => Empty))


  /** Columns 1..18: the only ones obstacles are placed in or moved in. */
  predicate Interior(c: int)
  {
    1 <= c < GoalColumn
  }

  /** The board with cell (r, c) overwritten by `v`. */
  function Set(b: Grid, r: nat, c: nat, v: Cell): Grid
    requires r < Height && c < Width
  {
    b[r := b[r][c := v]]
  }

  /** The board with every cell cleared. */
  function Blank(): (b: Grid)
    ensures forall r, c :: 0 <= r < Height && 0 <= c < Width ==> b[r][c] == Empty
  {
    seq(Height, _ => seq(Width, _ => Empty))
  }

  /** Row `j` holds the only obstacle of column `c`. */
  predicate SoleObstacle(b: Grid, c: nat, j: nat)
    requires c < Width
  {
    j < Height && IsObstacle(b[j][c])
    && forall r :: 0 <= r < Height && r != j ==> !IsObstacle(b[r][c])
  }

  /** Column `c` holds no obstacle. */
  predicate NoObstacle(b: Grid, c: nat)
    requires c < Width
  {
    forall r :: 0 <= r < Height ==> !IsObstacle(b[r][c])
  }

  /** Column `c` holds at most one obstacle. */
  predicate AtMostOneObstacle(b: Grid, c: nat)
    requires c < Width
  {
    forall r1, r2 :: 0 <= r1 < Height && 0 <= r2 < Height && IsObstacle(b[r1][c]) && IsObstacle(b[r2][c]) ==> r1 == r2
  }

  /** Every column holds at most one obstacle. */
  predicate ColumnsSingle(b: Grid)
  {
    forall c :: 0 <= c < Width ==> AtMostOneObstacle(b, c)
  }

  /** The start lane and the goal lane hold no obstacle. */
  predicate EdgesClear(b: Grid)
  {
    NoObstacle(b, 0) && NoObstacle(b, GoalColumn)
  }

  /** A column with at most one obstacle either has none or has it in exactly one row. */
  lemma AtMostOneCases(b: Grid, c: nat) returns (j: nat)
    requires c < Width && AtMostOneObstacle(b, c)
    ensures NoObstacle(b, c) || SoleObstacle(b, c, j)
  {
    j := 0;
    while j < Height && !IsObstacle(b[j][c])
      invariant j <= Height
      invariant forall r :: 0 <= r < j ==> !IsObstacle(b[r][c])
    {
      j := j + 1;
    }
    if j == Height {
      j := 0;
    }
  }
}
