/**
 * The game state and the operations that change it: start, spawn, the
 * game-loop tick, the player's moves, hard drop and the speed timer. Random
 * colour choice is replaced by the colours passed in; timers and input
 * events are the callers of these methods.
 */
module Coloris {
  import opened Wrappers
  import opened Board
  import opened Pieces
  import opened Resolution
  import opened Speed

  class Game {
    var grid: Grid
    var score: nat
    var gameOver: bool
    var gameStarted: bool
    /** The falling piece, absent between a settle and the next spawn. */
    var current: Option<Piece>
    /** The look-ahead piece shown in the preview. */
    var next: Option<Piece>
    var baseSpeed: int
    /** Soft drop held down. */
    var isDropping: bool
    /** The number of coloured cells cleared since the game started. */
    ghost var clearedCells: nat

    /**
     * The state every operation keeps: the falling piece is on the board and,
     * while the game runs, sits at a valid position; the look-ahead piece waits
     * at the spawn position; the speed stays between its floor and its start;
     * the score is 10 points for every cell cleared in this game.
     */
    ghost predicate Valid()
      reads this
    {
      (current.Some? ==> 0 <= current.value.x < Width && 0 <= current.value.y) &&
      (!gameOver && current.Some? ==> Fits(current.value, grid)) &&
      (next.Some? ==> next.value.x == Width / 2 && next.value.y == 0) &&
      MinSpeed <= baseSpeed <= BaseGameSpeed &&
      score == PointsPerCell * clearedCells
    }

    /** The state before the first game. */
    constructor ()
      ensures Valid()
      ensures grid == EmptyGrid() && score == 0 && clearedCells == 0 && !gameOver && !gameStarted
      ensures current == None && next == None && baseSpeed == BaseGameSpeed && !isDropping
    {
      grid := EmptyGrid();
      score := 0;
      gameOver := false;
      gameStarted := false;
      current := None;
      next := None;
      baseSpeed := BaseGameSpeed;
      isDropping := false;
      clearedCells := 0;
    }

    /** Starts or restarts a game: empty grid, zero score, base speed, two fresh pieces. */
    method StartGame(first: Colors, second: Colors)
      modifies this
      ensures Valid()
      ensures grid == EmptyGrid() && score == 0 && clearedCells == 0 && !gameOver && gameStarted
      ensures baseSpeed == BaseGameSpeed && !isDropping
      ensures current == Some(NewBlock(first)) && next == Some(NewBlock(second))
    {
      grid := EmptyGrid();
      score := 0;
      gameOver := false;
      gameStarted := true;
      baseSpeed := BaseGameSpeed;
      isDropping := false;
      clearedCells := 0;
      var firstBlock := NewBlock(first);
      var secondBlock := NewBlock(second);
      current := Some(firstBlock);
      next := Some(secondBlock);
      NewBlockFitsEmpty(first);
    }

    /**
     * Promotes the look-ahead piece and makes a fresh one; the game is over
     * when the promoted piece exists and one of its three cells is taken.
     */
    method SpawnBlock(colors: Colors)
      requires Valid()
      modifies this`current, this`next, this`gameOver
      ensures Valid()
      ensures current == old(next) && next == Some(NewBlock(colors))
      ensures gameOver == (old(gameOver) || (old(next).Some? && SpawnBlocked(grid, old(next).value)))
    {
      var newNext := NewBlock(colors);
      var promoted := next;
      current := promoted;
      next := Some(newNext);
      if promoted.Some? {
        var b := promoted.value;
        if Occupied(grid, b.y, b.x) || Occupied(grid, b.y + 1, b.x) || Occupied(grid, b.y + 2, b.x) {
          gameOver := true;
        }
        SpawnCheckIsValidator(grid, b);
      }
    }

    /**
     * The state after piece b came to rest on grid g0 with the given score and
     * cleared-cell count: the grid is the settled result of the chain reaction
     * on g0 with b written in, and the score and the cleared count have grown
     * by the chain's points and by the cells it removed.
     */
    ghost predicate SettledFrom(b: Piece, g0: Grid, score0: int, cleared0: int)
      reads this
      requires 0 <= b.x < Width && 0 <= b.y
    {
      var placed := Placed(g0, b);
      grid == Resolve(placed).0 &&
      score == score0 + Resolve(placed).1 &&
      clearedCells == cleared0 + (FilledCount(placed) - FilledCount(grid))
    }

    /** Writes a piece that has come to rest into the grid and runs the chain reaction. */
    method Settle(b: Piece)
      requires Valid() && current == None
      requires 0 <= b.x < Width && 0 <= b.y
      modifies this`grid, this`score, this`clearedCells
      ensures Valid()
      ensures SettledFrom(b, old(grid), old(score), old(clearedCells))
    {
      var newGrid := PlaceBlockOnGrid(grid, b);
      var settled, gained := ResolveChain(newGrid);
      clearedCells := clearedCells + (FilledCount(newGrid) - FilledCount(settled));
      grid := settled;
      score := score + gained;
    }

    /** Settles the falling piece into the grid and runs the chain reaction. */
    method PlaceBlock()
      requires Valid()
      modifies this`current, this`grid, this`score, this`clearedCells
      ensures Valid()
      ensures old(current).None? ==>
        current == None && grid == old(grid) && score == old(score) && clearedCells == old(clearedCells)
      ensures old(current).Some? ==>
        current == None && SettledFrom(old(current).value, old(grid), old(score), old(clearedCells))
    {
      if current.None? {
        return;
      }
      var b := current.value;
      current := None;
      Settle(b);
    }

    /**
     * The state one tick leaves behind when piece p fell on grid g0 with the
     * given score and cleared-cell count: p one row lower when that row fits,
     * otherwise p written into g0 and the chain reaction resolved.
     */
    ghost predicate FellFrom(p: Piece, g0: Grid, score0: int, cleared0: int)
      reads this
      requires 0 <= p.x < Width && 0 <= p.y
    {
      if Fits(AtRow(p, p.y + 1), g0) then
        current == Some(AtRow(p, p.y + 1)) && grid == g0 && score == score0 &&
        clearedCells == cleared0
      else
        current == None && SettledFrom(p, g0, score0, cleared0)
    }

    /** Moves the falling piece down one row, or settles it when the row below is blocked. */
    method Fall()
      requires Valid() && current.Some? && !gameOver
      modifies this`current, this`grid, this`score, this`clearedCells
      ensures Valid()
      ensures FellFrom(old(current).value, old(grid), old(score), old(clearedCells))
    {
      var b := current.value;
      ghost var g0, s0, c0 := grid, score, clearedCells;
      var nextPos := AtRow(b, b.y + 1);
      var ok := IsValidMove(Some(nextPos), grid);
      if ok {
        current := Some(nextPos);
        assert FellFrom(b, g0, s0, c0);
      } else {
        PlaceBlock();
        assert FellFrom(b, g0, s0, c0);
      }
    }

    /**
     * One turn of the game loop while a game runs: spawn when no piece falls,
     * otherwise move the piece down one row, or settle it when it cannot move.
     */
    method GameLoop(colors: Colors)
      requires Valid()
      modifies this`current, this`next, this`gameOver, this`grid, this`score, this`clearedCells
      ensures Valid()
      ensures !gameStarted || old(gameOver) ==>
        current == old(current) && next == old(next) && gameOver == old(gameOver) &&
        grid == old(grid) && score == old(score) && clearedCells == old(clearedCells)
      ensures gameStarted && !old(gameOver) && old(current).None? ==>
        current == old(next) && next == Some(NewBlock(colors)) &&
        gameOver == (old(next).Some? && SpawnBlocked(grid, old(next).value)) &&
        grid == old(grid) && score == old(score) && clearedCells == old(clearedCells)
      ensures gameStarted && !old(gameOver) && old(current).Some? ==>
        next == old(next) && !gameOver &&
        FellFrom(old(current).value, old(grid), old(score), old(clearedCells))
    {
      if !gameStarted || gameOver {
        return;
      }
      if current.None? {
        SpawnBlock(colors);
        return;
      }
      Fall();
    }

    /** Moves the falling piece dx columns sideways when the target position is valid. */
    method MoveBlock(dx: int)
      requires Valid()
      modifies this`current
      ensures Valid()
      ensures old(current).Some? && !gameOver && Fits(Shifted(old(current).value, dx), grid) ==>
        current == Some(Shifted(old(current).value, dx))
      ensures !(old(current).Some? && !gameOver && Fits(Shifted(old(current).value, dx), grid)) ==>
        current == old(current)
    {
      if current.None? || gameOver {
        return;
      }
      var newBlock := Shifted(current.value, dx);
      var ok := IsValidMove(Some(newBlock), grid);
      if ok {
        current := Some(newBlock);
      }
    }

    /**
     * Rotates the falling piece's colours when the rotated piece is valid;
     * in a running game that check always passes, so rotation always happens.
     */
    method RotateBlock()
      requires Valid()
      modifies this`current
      ensures Valid()
      ensures old(current).Some? && !gameOver ==> current == Some(Rotated(old(current).value))
      ensures old(current).None? || gameOver ==> current == old(current)
    {
      if current.None? || gameOver {
        return;
      }
      var b := current.value;
      var newBlock := Rotated(b);
      RotationKeepsFit(b, grid);
      var ok := IsValidMove(Some(newBlock), grid);
      if ok {
        current := Some(newBlock);
      }
    }

    /** Lowers the falling piece as far as it goes, then settles it at once. */
    method HardDrop()
      requires Valid()
      modifies this`current, this`grid, this`score, this`clearedCells
      ensures Valid()
      ensures old(current).None? || gameOver ==>
        current == old(current) && grid == old(grid) && score == old(score) &&
        clearedCells == old(clearedCells)
      ensures old(current).Some? && !gameOver ==>
        var p := old(current).value;
        current == None &&
        SettledFrom(AtRow(p, LandingRow(p, old(grid))), old(grid), old(score), old(clearedCells))
    {
      if current.None? || gameOver {
        return;
      }
      var b := current.value;
      var finalY := FindLandingRow(b, grid);
      current := None;
      Settle(AtRow(b, finalY));
    }

    /** The speed timer's step, active only while a game runs. */
    method IncreaseSpeed()
      requires Valid()
      modifies this`baseSpeed
      ensures Valid()
      ensures baseSpeed == if gameStarted && !gameOver then NextSpeed(old(baseSpeed)) else old(baseSpeed)
    {
      if !gameStarted || gameOver {
        return;
      }
      baseSpeed := NextSpeed(baseSpeed);
    }

    /** Soft drop pressed (on) or released (off); ignored unless a game runs. */
    method SetDropping(on: bool)
      requires Valid()
      modifies this`isDropping
      ensures Valid()
      ensures isDropping == if gameStarted && !gameOver then on else old(isDropping)
    {
      if !gameStarted || gameOver {
        return;
      }
      isDropping := on;
    }

    /** The interval the game loop currently waits between ticks. */
    function CurrentInterval(): (ms: int)
      reads this
      requires Valid()
      ensures FastDropSpeed <= ms <= baseSpeed
    {
      TickInterval(isDropping, baseSpeed)
    }
  }
}
