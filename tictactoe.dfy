/**
 * The tic-tac-toe sample games. The board is `int[3][3]`, a cell holding
 * `FREE`, `PLAYER_X` or `PLAYER_O`, and the side to move is `currentPlayer`;
 * `next` and `previous` both replace it by `3 - currentPlayer`.
 *
 * The value model below is shared by the sample classes: `Cells` lists
 * `grid[x][y]` in row-major order, at index `3 * x + y`. The class
 * `TicTacToeMinimax` keeps the grid in an `array2` and each of its methods is
 * proved to move its `Snapshot()` as the value functions say.
 */
module TicTacToe {
  import opened Games
  import opened Search

  const FREE: int := 0
  const PLAYER_X: int := 1
  const PLAYER_O: int := 2
  const GRID_SIZE: int := 3
  const MAX_TURN: int := 9

  /** A row or column index of the grid. */
  type Coord = i: int | 0 <= i < 3

  /** The nine cells, `grid[x][y]` at index `3 * x + y`. */
  type Cells = c: seq<int> | |c| == 9 witness [0, 0, 0, 0, 0, 0, 0, 0, 0]

  /** A `TicTacToeMove`: the cell `grid[x][y]` and the player it was listed for. */
  datatype Move = Move(x: Coord, y: Coord, player: int)

  /** The position of `TicTacToeMinimax` and `TicTacToeParallelMinimax`. */
  datatype Board = Board(cells: Cells, currentPlayer: int, turn: int)

  function Cell(c: Cells, x: Coord, y: Coord): int {
    c[3 * x + y]
  }

  function EmptyCells(): Cells {
    seq(9, _ => FREE)
  }

  /** The position `newGame` sets up: every cell free, X to move, turn 0. */
  function NewBoard(): Board {
    Board(EmptyCells(), PLAYER_X, 0)
  }

  /** Row `x` holds `player` in all three cells. */
  ghost predicate OwnsRow(c: Cells, player: int, x: Coord) {
    forall y: Coord :: Cell(c, x, y) == player
  }

  /** Column `y` holds `player` in all three cells. */
  ghost predicate OwnsColumn(c: Cells, player: int, y: Coord) {
    forall x: Coord :: Cell(c, x, y) == player
  }

  /** Reference definition of a win: `player` fills a whole row, column or diagonal. */
  ghost predicate OwnsLine(c: Cells, player: int) {
    (exists x: Coord :: OwnsRow(c, player, x))
    || (exists y: Coord :: OwnsColumn(c, player, y))
    || (forall i: Coord :: Cell(c, i, i) == player)
    || (forall x: Coord, y: Coord :: x + y == 2 ==> Cell(c, x, y) == player)
  }

  /** The lines of the grid are its three rows, its three columns and its two diagonals. */
  lemma OwnsLineCases(c: Cells)
    ensures forall player :: OwnsLine(c, player) <==>
              OwnsRow(c, player, 0) || OwnsRow(c, player, 1) || OwnsRow(c, player, 2)
              || OwnsColumn(c, player, 0) || OwnsColumn(c, player, 1) || OwnsColumn(c, player, 2)
              || (Cell(c, 0, 0) == player && Cell(c, 1, 1) == player && Cell(c, 2, 2) == player)
              || (Cell(c, 0, 2) == player && Cell(c, 1, 1) == player && Cell(c, 2, 0) == player)
  {
    forall player
      ensures OwnsLine(c, player) <==>
              OwnsRow(c, player, 0) || OwnsRow(c, player, 1) || OwnsRow(c, player, 2)
              || OwnsColumn(c, player, 0) || OwnsColumn(c, player, 1) || OwnsColumn(c, player, 2)
              || (Cell(c, 0, 0) == player && Cell(c, 1, 1) == player && Cell(c, 2, 2) == player)
              || (Cell(c, 0, 2) == player && Cell(c, 1, 1) == player && Cell(c, 2, 0) == player)
    {
      if forall x: Coord, y: Coord :: x + y == 2 ==> Cell(c, x, y) == player {
        assert Cell(c, 0, 2) == player && Cell(c, 2, 0) == player;
      }
    }
  }

  /** `hasWon(player)`: the eight lines, in the order the source tests them. */
  predicate HasWon(c: Cells, player: int): (r: bool)
    ensures r <==> OwnsLine(c, player)
  {
    OwnsLineCases(c);
    (player == Cell(c, 0, 1) && player == Cell(c, 0, 2) && player == Cell(c, 0, 0))
    || (player == Cell(c, 1, 1) && player == Cell(c, 1, 2) && player == Cell(c, 1, 0))
    || (player == Cell(c, 2, 1) && player == Cell(c, 2, 2) && player == Cell(c, 2, 0))
    || (player == Cell(c, 1, 0) && player == Cell(c, 2, 0) && player == Cell(c, 0, 0))
    || (player == Cell(c, 1, 1) && player == Cell(c, 2, 1) && player == Cell(c, 0, 1))
    || (player == Cell(c, 1, 2) && player == Cell(c, 2, 2) && player == Cell(c, 0, 2))
    || (player == Cell(c, 1, 1) && player == Cell(c, 2, 2) && player == Cell(c, 0, 0))
    || (player == Cell(c, 1, 1) && player == Cell(c, 2, 0) && player == Cell(c, 0, 2))
  }

  /** `isOver`: O or X has a line, or all nine moves have been played. */
  predicate IsOver(b: Board): (r: bool)
    ensures r <==> OwnsLine(b.cells, PLAYER_X) || OwnsLine(b.cells, PLAYER_O) || b.turn == 9
  {
    HasWon(b.cells, PLAYER_O) || HasWon(b.cells, PLAYER_X) || b.turn == MAX_TURN
  }

  /** `evaluate`, from the side of `currentPlayer`: what each score means, in the order the tests are made. */
  function Evaluate(b: Board): (e: int)
    ensures -2 <= e <= 2
    ensures e == 2 <==> OwnsLine(b.cells, b.currentPlayer)
    ensures e == -2 <==> !OwnsLine(b.cells, b.currentPlayer) && OwnsLine(b.cells, 3 - b.currentPlayer)
    ensures e == 1 <==> !OwnsLine(b.cells, b.currentPlayer) && !OwnsLine(b.cells, 3 - b.currentPlayer)
                        && Cell(b.cells, 1, 1) == b.currentPlayer
    ensures e == -1 <==> !OwnsLine(b.cells, b.currentPlayer) && !OwnsLine(b.cells, 3 - b.currentPlayer)
                         && Cell(b.cells, 1, 1) == 3 - b.currentPlayer
  {
    if HasWon(b.cells, b.currentPlayer) then 2
    else if HasWon(b.cells, 3 - b.currentPlayer) then -2
    else if Cell(b.cells, 1, 1) == b.currentPlayer then 1
    else if Cell(b.cells, 1, 1) == 3 - b.currentPlayer then -1
    else 0
  }

  /**
   * Unless both sides own a line, which play never produces, the score seen by
   * the other side is the opposite one.
   */
  lemma EvaluateAntisymmetric(b: Board)
    requires !(HasWon(b.cells, b.currentPlayer) && HasWon(b.cells, 3 - b.currentPlayer))
    ensures Evaluate(NextPlayer(b)) == -Evaluate(b)
  {
  }

  /** `next`: the position stays, and the other side is to move. */
  function NextPlayer(b: Board): (r: Board)
    ensures r.cells == b.cells && r.turn == b.turn
    ensures b.currentPlayer == PLAYER_X <==> r.currentPlayer == PLAYER_O
    ensures b.currentPlayer == PLAYER_O <==> r.currentPlayer == PLAYER_X
  {
    b.(currentPlayer := 3 - b.currentPlayer)
  }

  /** `previous`: the same toggle, so it takes back `next`. */
  function PreviousPlayer(b: Board): (r: Board)
    ensures NextPlayer(r) == b
    ensures b.currentPlayer == PLAYER_X <==> r.currentPlayer == PLAYER_O
    ensures b.currentPlayer == PLAYER_O <==> r.currentPlayer == PLAYER_X
  {
    b.(currentPlayer := 3 - b.currentPlayer)
  }

  lemma NextPreviousInverse(b: Board)
    ensures PreviousPlayer(NextPlayer(b)) == b && NextPlayer(PreviousPlayer(b)) == b
  {
  }

  /** `makeMove`: `currentPlayer` takes the cell, the other cells stay, the turn advances and the side changes. */
  function Play(b: Board, m: Move): (r: Board)
    ensures Cell(r.cells, m.x, m.y) == b.currentPlayer
    ensures forall x: Coord, y: Coord :: (x, y) != (m.x, m.y) ==> Cell(r.cells, x, y) == Cell(b.cells, x, y)
    ensures r.turn == b.turn + 1 && r.currentPlayer == 3 - b.currentPlayer
  {
    NextPlayer(b.(cells := b.cells[3 * m.x + m.y := b.currentPlayer], turn := b.turn + 1))
  }

  /** `unmakeMove`: the cell is freed, the other cells stay, the turn goes back and the side changes back. */
  function Undo(b: Board, m: Move): (r: Board)
    ensures Cell(r.cells, m.x, m.y) == FREE
    ensures forall x: Coord, y: Coord :: (x, y) != (m.x, m.y) ==> Cell(r.cells, x, y) == Cell(b.cells, x, y)
    ensures r.turn == b.turn - 1 && r.currentPlayer == 3 - b.currentPlayer
  {
    PreviousPlayer(b.(cells := b.cells[3 * m.x + m.y := FREE], turn := b.turn - 1))
  }

  lemma UndoPlay(b: Board, m: Move)
    requires Cell(b.cells, m.x, m.y) == FREE
    ensures Undo(Play(b, m), m) == b
  {
    assert Undo(Play(b, m), m).cells == b.cells;
  }

  /** The moves listed for the cells with index below `k`, in row-major order. */
  function FreeMoves(c: Cells, player: int, k: nat): seq<Move>
    requires k <= 9
  {
    if k == 0 then []
    else FreeMoves(c, player, k - 1) + (if c[k - 1] == FREE then [Move((k - 1) / 3, (k - 1) % 3, player)] else [])
  }

  lemma FreeMovesStep(c: Cells, player: int, i: Coord, j: Coord)
    ensures FreeMoves(c, player, 3 * i + j + 1)
            == FreeMoves(c, player, 3 * i + j) + (if Cell(c, i, j) == FREE then [Move(i, j, player)] else [])
  {
    assert (3 * i + j) / 3 == i && (3 * i + j) % 3 == j;
  }

  /** The moves listed below `k` are the free cells with index below `k`, tagged with `player`... */
  lemma {:induction false} FreeMovesExact(c: Cells, player: int, k: nat)
    requires k <= 9
    ensures forall m :: m in FreeMoves(c, player, k) <==> 3 * m.x + m.y < k && Cell(c, m.x, m.y) == FREE && m.player == player
  {
    if k > 0 {
      FreeMovesExact(c, player, k - 1);
      assert (k - 1) / 3 * 3 + (k - 1) % 3 == k - 1;
    }
  }

  /** ...in row-major order. */
  lemma {:induction false} FreeMovesRowMajor(c: Cells, player: int, k: nat)
    requires k <= 9
    ensures forall i, j :: 0 <= i < j < |FreeMoves(c, player, k)| ==>
              3 * FreeMoves(c, player, k)[i].x + FreeMoves(c, player, k)[i].y
              < 3 * FreeMoves(c, player, k)[j].x + FreeMoves(c, player, k)[j].y
  {
    if k > 0 {
      FreeMovesRowMajor(c, player, k - 1);
      FreeMovesExact(c, player, k - 1);
    }
  }

  /**
   * `getPossibleMoves`: the listed moves are exactly the free cells tagged with
   * the side to move, in row-major order and so each cell once.
   */
  function PossibleMoves(b: Board): (r: seq<Move>)
    ensures forall m :: m in r <==> Cell(b.cells, m.x, m.y) == FREE && m.player == b.currentPlayer
    ensures forall i, j :: 0 <= i < j < |r| ==> 3 * r[i].x + r[i].y < 3 * r[j].x + r[j].y
  {
    FreeMovesExact(b.cells, b.currentPlayer, 9);
    FreeMovesRowMajor(b.cells, b.currentPlayer, 9);
    FreeMoves(b.cells, b.currentPlayer, 9)
  }

  /** A new game is not over, has all nine cells to play and scores 0. */
  lemma NewBoardFacts()
    ensures !IsOver(NewBoard()) && Evaluate(NewBoard()) == 0
    ensures |PossibleMoves(NewBoard())| == 9
  {
  }

  /** The game as the search engines see it; `maxEvaluateValue` is 3. */
  function TicTacToeGame(): Game<Board, Move> {
    Game(IsOver, PossibleMoves, Play, Undo, NextPlayer, PreviousPlayer, Evaluate, 3)
  }

  lemma TicTacToeLawful()
    ensures Lawful(TicTacToeGame())
  {
    var g := TicTacToeGame();
    forall s, m | m in g.moves(s)
      ensures g.undo(g.play(s, m), m) == s
    {
      UndoPlay(s, m);
    }
  }

  /** The cells of a 3 x 3 grid, `g[x, y]` at index `3 * x + y`. */
  function GridCells(g: array2<int>): Cells
    reads g
    requires g.Length0 == GRID_SIZE && g.Length1 == GRID_SIZE
  {
    [g[0, 0], g[0, 1], g[0, 2], g[1, 0], g[1, 1], g[1, 2], g[2, 0], g[2, 1], g[2, 2]]
  }

  lemma GridCellOf(g: array2<int>, x: Coord, y: Coord)
    requires g.Length0 == GRID_SIZE && g.Length1 == GRID_SIZE
    ensures Cell(GridCells(g), x, y) == g[x, y]
  {
  }

  /** The double loop of `newGame` that frees every cell. */
  method ClearGrid(g: array2<int>)
    requires g.Length0 == GRID_SIZE && g.Length1 == GRID_SIZE
    modifies g
    ensures GridCells(g) == EmptyCells()
  {
    for i := 0 to GRID_SIZE
      invariant forall x, y :: 0 <= x < i && 0 <= y < GRID_SIZE ==> g[x, y] == FREE
    {
      for j := 0 to GRID_SIZE
        invariant forall x, y :: 0 <= x < i && 0 <= y < GRID_SIZE ==> g[x, y] == FREE
        invariant forall y :: 0 <= y < j ==> g[i, y] == FREE
      {
        g[i, j] := FREE;
      }
    }
  }

  /** A double loop copying every cell of `source` into `target`. */
  method CopyGrid(source: array2<int>, target: array2<int>)
    requires source.Length0 == GRID_SIZE && source.Length1 == GRID_SIZE
    requires target.Length0 == GRID_SIZE && target.Length1 == GRID_SIZE && source != target
    modifies target
    ensures GridCells(target) == GridCells(source)
  {
    for i := 0 to GRID_SIZE
      invariant forall x, y :: 0 <= x < i && 0 <= y < GRID_SIZE ==> target[x, y] == source[x, y]
    {
      for j := 0 to GRID_SIZE
        invariant forall x, y :: 0 <= x < i && 0 <= y < GRID_SIZE ==> target[x, y] == source[x, y]
        invariant forall y :: 0 <= y < j ==> target[i, y] == source[i, y]
      {
        target[i, j] := source[i, j];
      }
    }
  }

  /** The double loop of `getPossibleMoves`: a move for `player` on each free cell, `i` then `j`. */
  method ListFreeMoves(g: array2<int>, player: int) returns (moves: seq<Move>)
    requires g.Length0 == GRID_SIZE && g.Length1 == GRID_SIZE
    ensures moves == FreeMoves(GridCells(g), player, 9)
  {
    ghost var c := GridCells(g);
    moves := [];
    for i := 0 to GRID_SIZE
      invariant moves == FreeMoves(c, player, 3 * i)
    {
      for j := 0 to GRID_SIZE
        invariant moves == FreeMoves(c, player, 3 * i + j)
      {
        GridCellOf(g, i, j);
        FreeMovesStep(c, player, i, j);
        if g[i, j] == FREE {
          moves := moves + [Move(i, j, player)];
        }
      }
    }
  }

  /** `TicTacToeMinimax`: the grid, the side to move and the turn counter. */
  class TicTacToeMinimax {
    const algo: Algorithm
    const grid: array2<int>
    var currentPlayer: int
    var turn: int

    ghost predicate Valid() reads this {
      grid.Length0 == GRID_SIZE && grid.Length1 == GRID_SIZE
    }

    /** The position the object holds. */
    function Snapshot(): Board
      reads this, grid
      requires Valid()
    {
      Board(GridCells(grid), currentPlayer, turn)
    }

    constructor (algo: Algorithm)
      ensures Valid() && fresh(grid) && this.algo == algo
      ensures Snapshot() == NewBoard()
    {
      this.algo := algo;
      grid := new int[GRID_SIZE, GRID_SIZE];
      new;
      NewGame();
    }

    method NewGame()
      requires Valid()
      modifies this, grid
      ensures Valid() && Snapshot() == NewBoard()
    {
      ClearGrid(grid);
      currentPlayer := PLAYER_X;
      turn := 0;
    }

    method MakeMove(m: Move)
      requires Valid()
      modifies this, grid
      ensures Valid() && Snapshot() == Play(old(Snapshot()), m)
    {
      grid[m.x, m.y] := currentPlayer;
      turn := turn + 1;
      Next();
    }

    method UnmakeMove(m: Move)
      requires Valid()
      modifies this, grid
      ensures Valid() && Snapshot() == Undo(old(Snapshot()), m)
    {
      grid[m.x, m.y] := FREE;
      turn := turn - 1;
      Previous();
    }

    method Next()
      requires Valid()
      modifies this
      ensures Valid() && Snapshot() == NextPlayer(old(Snapshot()))
    {
      currentPlayer := 3 - currentPlayer;
    }

    method Previous()
      requires Valid()
      modifies this
      ensures Valid() && Snapshot() == PreviousPlayer(old(Snapshot()))
    {
      currentPlayer := 3 - currentPlayer;
    }

    method GetPossibleMoves() returns (moves: seq<Move>)
      requires Valid()
      ensures moves == PossibleMoves(Snapshot())
    {
      moves := ListFreeMoves(grid, currentPlayer);
    }
  }
}
