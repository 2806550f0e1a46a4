/** Frog movement: clear the frog's cell, take one step in the requested
    direction (stopping at the board's edges), then resolve a collision with
    an obstacle at the destination by taking a life and either respawning at
    the start cell or, on the last life, leaving the frog off the board. */
module Movement {

  import opened Board
  import opened GameState

  const DirUp: nat := 0
  const DirDown: nat := 1
  const DirLeft: nat := 2
  const DirRight: nat := 3

  datatype Pos = Pos(x: nat, y: nat)

  /** The cell a move in direction `dir` leads to from (x, y). A move
      against an edge leaves that coordinate as it was, and a direction
      outside 0..3 moves nothing. */
  function Destination(x: nat, y: nat, dir: nat): (p: Pos)
    requires x < Width && y < Height
    ensures p.x < Width && p.y < Height
    ensures dir == DirUp && y == 0 ==> p == Pos(x, y)
    ensures dir == DirDown && y == BottomRow ==> p == Pos(x, y)
    ensures dir == DirLeft && x == 0 ==> p == Pos(x, y)
    ensures dir == DirRight && x == GoalColumn ==> p == Pos(x, y)
    ensures dir > DirRight ==> p == Pos(x, y)
  {
    if dir == DirUp then Pos(x, if y > 0 then y - 1 else y)
    else if dir == DirDown then Pos(x, if y < BottomRow then y + 1 else y)
    else if dir == DirLeft then Pos(if x > 0 then x - 1 else x, y)
    else if dir == DirRight then Pos(if x < GoalColumn then x + 1 else x, y)
    else Pos(x, y)
  }

  /** The unit step of each direction, as a column and row offset. */
  function Delta(dir: nat): (int, int)
  {
    match dir
    case 0 => (0, -1)
    case 1 => (0, 1)
    case 2 => (-1, 0)
    case 3 => (1, 0)
    case _ => (0, 0)
  }

  /** `v` limited to the range 0..hi. */
  function Clamp(v: int, hi: nat): (r: nat)
    ensures r <= hi
    ensures 0 <= v <= hi ==> r == v
  {
    if v < 0 then 0 else if v > hi then hi else v
  }

  /** The destination is the current cell plus the direction's unit step,
      clamped to the board. */
  lemma DestinationIsClampedStep(x: nat, y: nat, dir: nat)
    requires x < Width && y < Height
    ensures Destination(x, y, dir) == Pos(Clamp(x + Delta(dir).0, GoalColumn), Clamp(y + Delta(dir).1, BottomRow))
  {
  }

  /** The 8-bit life counter after `lives--`: it wraps from 0 to 255. */
  function DecrementLives(lives: nat): (l: nat)
    requires lives < ByteModulus
    ensures l < ByteModulus
    ensures lives > 0 ==> l == lives - 1
    ensures lives == 0 ==> l == ByteModulus - 1
  {
    (lives + ByteModulus - 1) % ByteModulus
  }

  /** A move collides when it reaches a different cell that holds an
      obstacle. The frog's own cell is cleared before the check, so a move
      that stays put never collides, even when an obstacle has moved onto
      the frog. */
  predicate Collides(g: Game, dir: nat)
    requires Valid(g)
  {
    var p := Destination(g.x, g.y, dir);
    p != Pos(g.x, g.y) && IsObstacle(g.board[p.y][p.x])
  }

  /** One frog move. Without a collision the frog marker is written at the
      destination and lives are kept. On a collision one life is taken; with
      lives left the frog respawns at the start cell, otherwise it stays at
      the collision cell with no marker written. Only the old frog cell and
      the new frog cell change. */
  function MoveFrog(g: Game, dir: nat): (g': Game)
    requires Valid(g)
    ensures Valid(g')
    ensures !Collides(g, dir) ==>
      && g'.lives == g.lives
      && Pos(g'.x, g'.y) == Destination(g.x, g.y, dir)
      && g'.board[g'.y][g'.x] == Frog
    ensures Collides(g, dir) ==> g'.lives == DecrementLives(g.lives)
    ensures Collides(g, dir) && g'.lives > 0 ==>
      g'.x == StartX && g'.y == StartY && g'.board[StartY][StartX] == Frog
    ensures Collides(g, dir) && g'.lives == 0 ==>
      && Pos(g'.x, g'.y) == Destination(g.x, g.y, dir)
      && g'.board[g'.y][g'.x] == g.board[g'.y][g'.x]
    ensures Pos(g.x, g.y) != Pos(g'.x, g'.y) ==> g'.board[g.y][g.x] == Empty
    ensures forall r, c :: 0 <= r < Height && 0 <= c < Width && Pos(c, r) != Pos(g.x, g.y) && Pos(c, r) != Pos(g'.x, g'.y) ==>
      g'.board[r][c] == g.board[r][c]
  {
    var cleared := Set(g.board, g.y, g.x, Empty);
    var p := Destination(g.x, g.y, dir);
    if IsObstacle(cleared[p.y][p.x]) then
      var lives := DecrementLives(g.lives);
      if lives == 0 then Game(cleared, p.x, p.y, lives)
      else Game(Set(cleared, StartY, StartX, Frog), StartX, StartY, lives)
    else
      Game(Set(cleared, p.y, p.x, Frog), p.x, p.y, g.lives)
  }

  /** A move costs a life exactly when it collides: no other move changes
      the life counter. */
  lemma CollisionCostsLife(g: Game, dir: nat)
    requires Valid(g)
    ensures Collides(g, dir) <==> MoveFrog(g, dir).lives != g.lives
  {
  }

  /** Obstacles only ever sit in interior columns, so a colliding move
      always ends in one: stepping onto the goal lane never costs a life. */
  lemma CollisionOnlyInInterior(g: Game, dir: nat)
    requires Inv(g) && Collides(g, dir)
    ensures Interior(Destination(g.x, g.y, dir).x)
  {
  }

  /** Moving onto the goal lane never collides. */
  lemma GoalLaneIsSafe(g: Game, dir: nat)
    requires Inv(g) && Destination(g.x, g.y, dir).x == GoalColumn
    ensures !Collides(g, dir)
    ensures MoveFrog(g, dir).lives == g.lives && MoveFrog(g, dir).x == GoalColumn
  {
  }

  /** The respawn cell lies in the start lane, which never holds an obstacle. */
  lemma RespawnCellIsClear(g: Game)
    requires Inv(g)
    ensures !IsObstacle(g.board[StartY][StartX])
  {
  }

  /** A move keeps the session invariant while the frog has lives. */
  lemma MovePreservesInv(g: Game, dir: nat)
    requires Inv(g) && g.lives > 0
    ensures Inv(MoveFrog(g, dir))
  {
    var g' := MoveFrog(g, dir);
    forall c | 0 <= c < Width
      ensures AtMostOneObstacle(g'.board, c)
    {
      assert AtMostOneObstacle(g.board, c);
      forall r | 0 <= r < Height && IsObstacle(g'.board[r][c])
        ensures IsObstacle(g.board[r][c])
      {
      }
    }
    forall r | 0 <= r < Height
      ensures !IsObstacle(g'.board[r][0]) && !IsObstacle(g'.board[r][GoalColumn])
    {
    }
  }

  /** After a move that leaves the frog alive, exactly one cell holds the
      frog marker: the frog's recorded position. */
  lemma MoveLeavesOneFrog(g: Game, dir: nat)
    requires Inv(g) && g.lives > 0 && MoveFrog(g, dir).lives > 0
    ensures MoveFrog(g, dir).board[MoveFrog(g, dir).y][MoveFrog(g, dir).x] == Frog
    ensures forall r, c :: 0 <= r < Height && 0 <= c < Width && MoveFrog(g, dir).board[r][c] == Frog ==>
      r == MoveFrog(g, dir).y && c == MoveFrog(g, dir).x
  {
    MovePreservesInv(g, dir);
  }

  /** A move on the last life that collides ends the session as a loss:
      the frog is left short of the goal lane. */
  lemma LastLifeCollisionLoses(g: Game, dir: nat)
    requires Inv(g) && g.lives == 1 && Collides(g, dir)
    ensures MoveFrog(g, dir).lives == 0
    ensures MoveFrog(g, dir).x < GoalColumn
    ensures !Running(MoveFrog(g, dir)) && OutcomeOf(MoveFrog(g, dir)) == Lose
  {
    CollisionOnlyInInterior(g, dir);
  }

  /** When an obstacle has moved onto the frog's cell, the next move clears
      that cell: the obstacle is erased rather than left behind. */
  lemma MoveErasesObstacleOnFrog(g: Game, dir: nat)
    requires Valid(g) && IsObstacle(g.board[g.y][g.x])
    ensures !IsObstacle(MoveFrog(g, dir).board[g.y][g.x])
  {
  }
}
