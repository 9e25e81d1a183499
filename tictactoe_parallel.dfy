/**
 * `TicTacToeParallelMinimax`: the same game as `TicTacToeMinimax`, for the
 * parallel engine, which searches the children of the root on clones. A clone
 * is built by a private constructor that copies the grid cell by cell into a
 * grid of its own.
 */
module ParallelTicTacToe {
  import opened Search
  import opened TicTacToe

  class TicTacToeParallelMinimax {
    const algo: Algorithm
    const grid: array2<int>
    var currentPlayer: int
    var turn: int

    ghost predicate Valid() reads this {
      grid.Length0 == GRID_SIZE && grid.Length1 == GRID_SIZE
    }

    /** The position the object holds. */
    function Snapshot(): Board
      reads this, grid
      requires Valid()
    {
      Board(GridCells(grid), currentPlayer, turn)
    }

    constructor (algo: Algorithm)
      ensures Valid() && fresh(grid) && this.algo == algo
      ensures Snapshot() == NewBoard()
    {
      this.algo := algo;
      grid := new int[GRID_SIZE, GRID_SIZE];
      new;
      NewGame();
    }

    /** The private copying constructor: a new game, then the given side, turn and cells. */
    constructor Copy(algo: Algorithm, grid: array2<int>, turn: int, currentPlayer: int)
      requires grid.Length0 == GRID_SIZE && grid.Length1 == GRID_SIZE
      ensures Valid() && fresh(this.grid) && this.algo == algo
      ensures Snapshot() == Board(GridCells(grid), currentPlayer, turn)
    {
      this.algo := algo;
      this.grid := new int[GRID_SIZE, GRID_SIZE];
      new;
      NewGame();
      this.currentPlayer := currentPlayer;
      this.turn := turn;
      CopyGrid(grid, this.grid);
    }

    /** `clone`: the same algorithm and position, on a grid of its own. */
    method Clone() returns (c: TicTacToeParallelMinimax)
      requires Valid()
      ensures fresh(c) && fresh(c.grid) && c.Valid()
      ensures c.algo == algo && c.Snapshot() == Snapshot()
    {
      c := new TicTacToeParallelMinimax.Copy(algo, grid, turn, currentPlayer);
    }

    /**
     * What the parallel engine does with a clone: a move played on it changes
     * the clone only, and this object keeps its position.
     */
    method MoveOnClone(m: Move) returns (c: TicTacToeParallelMinimax)
      requires Valid()
      ensures fresh(c) && c.Valid() && c.algo == algo
      ensures c.Snapshot() == Play(Snapshot(), m)
    {
      c := Clone();
      c.MakeMove(m);
    }

    method NewGame()
      requires Valid()
      modifies this, grid
      ensures Valid() && Snapshot() == NewBoard()
    {
      ClearGrid(grid);
      currentPlayer := PLAYER_X;
      turn := 0;
    }

    method MakeMove(m: Move)
      requires Valid()
      modifies this, grid
      ensures Valid() && Snapshot() == Play(old(Snapshot()), m)
    {
      grid[m.x, m.y] := currentPlayer;
      turn := turn + 1;
      Next();
    }

    method UnmakeMove(m: Move)
      requires Valid()
      modifies this, grid
      ensures Valid() && Snapshot() == Undo(old(Snapshot()), m)
    {
      grid[m.x, m.y] := FREE;
      turn := turn - 1;
      Previous();
    }

    method Next()
      requires Valid()
      modifies this
      ensures Valid() && Snapshot() == NextPlayer(old(Snapshot()))
    {
      currentPlayer := 3 - currentPlayer;
    }

    method Previous()
      requires Valid()
      modifies this
      ensures Valid() && Snapshot() == PreviousPlayer(old(Snapshot()))
    {
      currentPlayer := 3 - currentPlayer;
    }

    method GetPossibleMoves() returns (moves: seq<Move>)
      requires Valid()
      ensures moves == PossibleMoves(Snapshot())
    {
      moves := ListFreeMoves(grid, currentPlayer);
    }
  }
}
