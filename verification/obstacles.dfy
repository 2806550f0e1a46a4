/** The obstacle tick: in every interior column the first obstacle found,
    scanning rows top to bottom, moves one row in its direction of travel,
    wrapping around the four rows. An up-obstacle moves to the row above, a
    down-obstacle to the row below. The target cell is overwritten whatever
    it held, the frog marker included, and lives are not touched. */
module Obstacles {

  import opened Board
  import opened GameState

  /** The row an obstacle of kind `v` at row `j` moves to. */
  function NextRow(v: Cell, j: nat): (j': nat)
    requires IsObstacle(v) && j < Height
    ensures j' < Height
    ensures v == ObstacleUp ==> j' == (if j == 0 then BottomRow else j - 1)
    ensures v == ObstacleDown ==> j' == (if j == BottomRow then 0 else j + 1)
  {
    if v == ObstacleUp then (j + Height - 1) % Height else (j + 1) % Height
  }

  /** Scans column `c` from row `j` down; the first obstacle met is cleared
      and written again one row along, and the scan stops there. */
  function ScanColumn(b: Grid, c: nat, j: nat): Grid
    requires c < Width && j <= Height
    decreases Height - j
  {
    if j == Height then b
    else if IsObstacle(b[j][c]) then
      Set(Set(b, j, c, Empty), NextRow(b[j][c], j), c, b[j][c])
    else ScanColumn(b, c, j + 1)
  }

  /** Runs the column scan on every column from `col` up to the goal lane
      (exclusive), each on the board the previous scans left. */
  function TickFrom(b: Grid, col: nat): Grid
    requires 1 <= col <= GoalColumn
    decreases GoalColumn - col
  {
    if col == GoalColumn then b
    else TickFrom(ScanColumn(b, col, 0), col + 1)
  }

  /** One obstacle tick over the whole board. Although the columns are
      scanned one after another on a shared board, each interior column ends
      up exactly as scanning it alone on the original board leaves it, and
      the start and goal lanes are untouched. */
  function Tick(b: Grid): (b': Grid)
    ensures forall r, c {:trigger b'[r][c]} :: 0 <= r < Height && 0 <= c < Width ==>
      b'[r][c] == if Interior(c) then ScanColumn(b, c, 0)[r][c] else b[r][c]
  {
    TickFromCell(b, 1);
    TickFrom(b, 1)
  }

  /** Scanning column `c` changes no other column and never creates a frog marker. */
  lemma {:induction false} ScanColumnFrame(b: Grid, c: nat, j: nat)
    requires c < Width && j <= Height
    ensures forall r, k :: 0 <= r < Height && 0 <= k < Width && k != c ==> ScanColumn(b, c, j)[r][k] == b[r][k]
    ensures forall r, k :: 0 <= r < Height && 0 <= k < Width && ScanColumn(b, c, j)[r][k] == Frog ==> b[r][k] == Frog
    decreases Height - j
  {
    if j < Height && !IsObstacle(b[j][c]) {
      ScanColumnFrame(b, c, j + 1);
    }
  }

  /** The scan of column `c` depends on column `c` alone. */
  lemma {:induction false} ScanColumnLocal(b1: Grid, b2: Grid, c: nat, j: nat)
    requires c < Width && j <= Height
    requires forall r :: 0 <= r < Height ==> b1[r][c] == b2[r][c]
    ensures forall r :: 0 <= r < Height ==> ScanColumn(b1, c, j)[r][c] == ScanColumn(b2, c, j)[r][c]
    decreases Height - j
  {
    if j < Height && !IsObstacle(b1[j][c]) {
      ScanColumnLocal(b1, b2, c, j + 1);
    }
  }

  /** Column by column, the sequential scan from `col` is the column scan of
      that column on the original board: columns are independent of each other. */
  lemma {:induction false} TickFromCell(b: Grid, col: nat)
    requires 1 <= col <= GoalColumn
    ensures forall r, c {:trigger TickFrom(b, col)[r][c]} :: 0 <= r < Height && 0 <= c < Width ==>
      TickFrom(b, col)[r][c] == if col <= c < GoalColumn then ScanColumn(b, c, 0)[r][c] else b[r][c]
    decreases GoalColumn - col
  {
    if col < GoalColumn {
      var b1 := ScanColumn(b, col, 0);
      TickFromCell(b1, col + 1);
      ScanColumnFrame(b, col, 0);
      forall r, c | 0 <= r < Height && 0 <= c < Width
        ensures TickFrom(b, col)[r][c] == if col <= c < GoalColumn then ScanColumn(b, c, 0)[r][c] else b[r][c]
      {
        assert TickFrom(b, col) == TickFrom(b1, col + 1);
        if col + 1 <= c < GoalColumn {
          ScanColumnLocal(b1, b, c, 0);
        } else if c == col {
          assert TickFrom(b1, col + 1)[r][c] == b1[r][c];
        } else {
          assert b1[r][c] == b[r][c];
          assert TickFrom(b1, col + 1)[r][c] == b1[r][c];
        }
      }
    } else {
      assert TickFrom(b, col) == b;
    }
  }

  /** A tick never creates a frog marker: an obstacle may overwrite the
      marker, but no cell becomes the frog's. */
  lemma TickNoNewFrog(b: Grid)
    ensures forall r, c :: 0 <= r < Height && 0 <= c < Width && Tick(b)[r][c] == Frog ==> b[r][c] == Frog
  {
    forall r, c | 0 <= r < Height && 0 <= c < Width && Tick(b)[r][c] == Frog
      ensures b[r][c] == Frog
    {
      if Interior(c) {
        ScanColumnFrame(b, c, 0);
      }
    }
  }

  /** Scanning a column whose only obstacle sits at row `j0` moves exactly that obstacle. */
  lemma {:induction false} ScanSole(b: Grid, c: nat, j0: nat, j: nat)
    requires c < Width && SoleObstacle(b, c, j0) && j <= j0
    ensures ScanColumn(b, c, j) == Set(Set(b, j0, c, Empty), NextRow(b[j0][c], j0), c, b[j0][c])
    decreases j0 - j
  {
    if j < j0 {
      ScanSole(b, c, j0, j + 1);
    }
  }

  /** Scanning a column without obstacles changes nothing. */
  lemma {:induction false} ScanNone(b: Grid, c: nat, j: nat)
    requires c < Width && NoObstacle(b, c) && j <= Height
    ensures ScanColumn(b, c, j) == b
    decreases Height - j
  {
    if j < Height {
      ScanNone(b, c, j + 1);
    }
  }

  /** A tick on an interior column holding a single obstacle at row `j`:
      row `j` is cleared, the obstacle reappears one row along in its
      direction (an up-obstacle at row (j + 3) % 4, a down-obstacle at row
      (j + 1) % 4), it is again the column's only obstacle, and the column's
      other two rows are unchanged. */
  lemma TickSingleObstacle(b: Grid, c: nat, j: nat)
    requires Interior(c) && SoleObstacle(b, c, j)
    ensures b[j][c] == ObstacleUp ==> Tick(b)[(j + 3) % 4][c] == ObstacleUp
    ensures b[j][c] == ObstacleDown ==> Tick(b)[(j + 1) % 4][c] == ObstacleDown
    ensures Tick(b)[j][c] == Empty
    ensures SoleObstacle(Tick(b), c, NextRow(b[j][c], j))
    ensures forall r :: 0 <= r < Height && r != j && r != NextRow(b[j][c], j) ==> Tick(b)[r][c] == b[r][c]
  {
    TickMovesSole(b, c, j);
    ScanSoleCells(b, c, j);
  }

  /** The single obstacle of an interior column keeps its kind and stays
      alone in the column as the tick moves it. */
  lemma TickMovesSole(b: Grid, c: nat, j: nat)
    requires Interior(c) && SoleObstacle(b, c, j)
    ensures Tick(b)[NextRow(b[j][c], j)][c] == b[j][c]
    ensures SoleObstacle(Tick(b), c, NextRow(b[j][c], j))
  {
    var j' := NextRow(b[j][c], j);
    var s := ScanColumn(b, c, 0);
    ScanSoleCells(b, c, j);
    var t := Tick(b);
    forall r | 0 <= r < Height && r != j'
      ensures !IsObstacle(t[r][c])
    {
      assert t[r][c] == s[r][c];
      if r != j {
        assert s[r][c] == b[r][c];
      }
    }
  }

  /** The cells of column `c` after scanning it when its only obstacle is at row `j`. */
  lemma ScanSoleCells(b: Grid, c: nat, j: nat)
    requires c < Width && SoleObstacle(b, c, j)
    ensures ScanColumn(b, c, 0)[NextRow(b[j][c], j)][c] == b[j][c]
    ensures ScanColumn(b, c, 0)[j][c] == Empty
    ensures forall r :: 0 <= r < Height && r != j && r != NextRow(b[j][c], j) ==>
      ScanColumn(b, c, 0)[r][c] == b[r][c]
  {
    ScanSole(b, c, j, 0);
  }

  /** Up and down moves undo each other, and four moves of one kind bring
      an obstacle back to its row: the rows form a cycle of length four. */
  lemma NextRowCycle(v: Cell, j: nat)
    requires IsObstacle(v) && j < Height
    ensures NextRow(ObstacleDown, NextRow(ObstacleUp, j)) == j
    ensures NextRow(ObstacleUp, NextRow(ObstacleDown, j)) == j
    ensures NextRow(v, NextRow(v, NextRow(v, NextRow(v, j)))) == j
  {
  }

  /** A tick leaves a column without obstacles as it was. */
  lemma TickEmptyColumn(b: Grid, c: nat)
    requires c < Width && NoObstacle(b, c)
    ensures forall r :: 0 <= r < Height ==> Tick(b)[r][c] == b[r][c]
    ensures NoObstacle(Tick(b), c)
  {
    ScanNone(b, c, 0);
  }

  /** A tick keeps a column at no more than one obstacle. */
  lemma TickKeepsColumnSingle(b: Grid, c: nat)
    requires c < Width && AtMostOneObstacle(b, c)
    ensures AtMostOneObstacle(Tick(b), c)
  {
    var j := AtMostOneCases(b, c);
    if NoObstacle(b, c) {
      TickEmptyColumn(b, c);
    } else if Interior(c) {
      TickMovesSole(b, c, j);
    }
  }

  /** The tick keeps the board's layout invariants: start and goal lanes
      clear, at most one obstacle per column. */
  lemma TickPreservesLayout(b: Grid)
    requires EdgesClear(b) && ColumnsSingle(b)
    ensures EdgesClear(Tick(b)) && ColumnsSingle(Tick(b))
  {
    forall c | 0 <= c < Width
      ensures AtMostOneObstacle(Tick(b), c)
    {
      TickKeepsColumnSingle(b, c);
    }
    TickEmptyColumn(b, 0);
    TickEmptyColumn(b, GoalColumn);
  }

  /** The obstacle tick keeps the session invariant. It changes only the
      board: position and lives are as before. */
  lemma TickPreservesInv(g: Game)
    requires Inv(g)
    ensures Inv(g.(board := Tick(g.board)))
  {
    TickPreservesLayout(g.board);
    TickNoNewFrog(g.board);
  }

  /** Four ticks bring a column's single obstacle back to its row. */
  lemma TickPeriod(b: Grid, c: nat, j: nat)
    requires Interior(c) && SoleObstacle(b, c, j)
    ensures SoleObstacle(Tick(Tick(Tick(Tick(b)))), c, j)
    ensures Tick(Tick(Tick(Tick(b))))[j][c] == b[j][c]
  {
    var v := b[j][c];
    var b1 := Tick(b);
    TickMovesSole(b, c, j);
    var j1 := NextRow(v, j);
    var b2 := Tick(b1);
    TickMovesSole(b1, c, j1);
    var j2 := NextRow(v, j1);
    var b3 := Tick(b2);
    TickMovesSole(b2, c, j2);
    var j3 := NextRow(v, j2);
    TickMovesSole(b3, c, j3);
  }
}
