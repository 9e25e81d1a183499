/**
 * `TicTacToeIA`, the tic-tac-toe sample of the `fr.pixelprose` engine. It
 * keeps no turn counter: the game is over only when a row, a column or a
 * diagonal holds three equal marks, so a full board without a line is not
 * over (it simply has no moves left). `evaluate` scores 2 for a finished
 * game, 1 when the centre belongs to the side to move and 0 otherwise, and
 * `makeMove` writes `currentPlayer`, not the move's own player.
 */
module PixelproseTicTacToe {
  import opened Wrappers
  import opened Games
  import opened Search
  import opened Pixelprose
  import opened TicTacToe

  /** The strict lower bound `minEvaluateValue` announces. */
  const MIN_EVALUATE_VALUE: int := -1
  /** The strict upper bound `maxEvaluateValue` announces, the one the engine seeds with. */
  const MAX_EVALUATE_VALUE: int := 3

  /** The position of a `TicTacToeIA`: the grid and the side to move. */
  datatype Position = Position(cells: Cells, currentPlayer: int)

  /** `newGame`: every cell free, X to play. */
  function NewPosition(): Position {
    Position(EmptyCells(), PLAYER_X)
  }

  /** Three cells of one line: equal marks, and not `FREE`. */
  predicate Marked(a: int, b: int, d: int) {
    a == b && a == d && a != FREE
  }

  /** `isOver`, the eight lines in the order the source tests them: some mark other than `FREE` fills a whole line. */
  predicate IsOver(b: Position): (r: bool)
    ensures r <==> exists v :: v != FREE && OwnsLine(b.cells, v)
  {
    var c := b.cells;
    var over :=
      Marked(Cell(c, 0, 0), Cell(c, 0, 1), Cell(c, 0, 2))
      || Marked(Cell(c, 1, 0), Cell(c, 1, 1), Cell(c, 1, 2))
      || Marked(Cell(c, 2, 0), Cell(c, 2, 1), Cell(c, 2, 2))
      || Marked(Cell(c, 0, 0), Cell(c, 1, 0), Cell(c, 2, 0))
      || Marked(Cell(c, 0, 1), Cell(c, 1, 1), Cell(c, 2, 1))
      || Marked(Cell(c, 0, 2), Cell(c, 1, 2), Cell(c, 2, 2))
      || Marked(Cell(c, 0, 0), Cell(c, 1, 1), Cell(c, 2, 2))
      || Marked(Cell(c, 0, 2), Cell(c, 1, 1), Cell(c, 2, 0));
    OwnsLineCases(c);
    // every line runs through one of the cells of the main diagonal
    assert over ==> (Cell(c, 0, 0) != FREE && OwnsLine(c, Cell(c, 0, 0)))
                    || (Cell(c, 1, 1) != FREE && OwnsLine(c, Cell(c, 1, 1)))
                    || (Cell(c, 2, 2) != FREE && OwnsLine(c, Cell(c, 2, 2)));
    over
  }

  /** A full board on which nobody has a line. */
  function DrawnCells(): Cells {
    [PLAYER_X, PLAYER_O, PLAYER_X,
     PLAYER_X, PLAYER_O, PLAYER_O,
     PLAYER_O, PLAYER_X, PLAYER_X]
  }

  /** A full board without a line is not over, and no move is left on it. */
  lemma FullBoardNotOver(p: int)
    ensures forall k :: 0 <= k < 9 ==> DrawnCells()[k] != FREE
    ensures !IsOver(Position(DrawnCells(), p))
    ensures PossibleMoves(Position(DrawnCells(), p)) == []
  {
    var moves := PossibleMoves(Position(DrawnCells(), p));
    if moves != [] {
      assert moves[0] in moves;
    }
  }

  /** `evaluate`, positive whatever side is to move; what each score means. */
  function Evaluate(b: Position): (e: int)
    ensures MIN_EVALUATE_VALUE < e < MAX_EVALUATE_VALUE
    ensures e == 2 <==> exists v :: v != FREE && OwnsLine(b.cells, v)
    ensures e == 1 <==> !IsOver(b) && Cell(b.cells, 1, 1) == b.currentPlayer
    ensures e == 0 <==> !IsOver(b) && Cell(b.cells, 1, 1) != b.currentPlayer
  {
    if IsOver(b) then 2
    else if Cell(b.cells, 1, 1) == b.currentPlayer then 1
    else 0
  }

  /** `next`: the grid stays, and the other side is to move. */
  function NextPlayer(b: Position): (r: Position)
    ensures r.cells == b.cells
    ensures b.currentPlayer == PLAYER_X <==> r.currentPlayer == PLAYER_O
    ensures b.currentPlayer == PLAYER_O <==> r.currentPlayer == PLAYER_X
  {
    b.(currentPlayer := 3 - b.currentPlayer)
  }

  /** `previous`: the same toggle, so it takes back `next`. */
  function PreviousPlayer(b: Position): (r: Position)
    ensures NextPlayer(r) == b
    ensures b.currentPlayer == PLAYER_X <==> r.currentPlayer == PLAYER_O
    ensures b.currentPlayer == PLAYER_O <==> r.currentPlayer == PLAYER_X
  {
    b.(currentPlayer := 3 - b.currentPlayer)
  }

  lemma NextPreviousInverse(b: Position)
    ensures PreviousPlayer(NextPlayer(b)) == b && NextPlayer(PreviousPlayer(b)) == b
  {
  }

  /** `makeMove`: `currentPlayer` takes the cell, the other cells stay and the side changes. */
  function Play(b: Position, m: Move): (r: Position)
    ensures Cell(r.cells, m.x, m.y) == b.currentPlayer
    ensures forall x: Coord, y: Coord :: (x, y) != (m.x, m.y) ==> Cell(r.cells, x, y) == Cell(b.cells, x, y)
    ensures r.currentPlayer == 3 - b.currentPlayer
  {
    NextPlayer(b.(cells := b.cells[3 * m.x + m.y := b.currentPlayer]))
  }

  /** `unmakeMove`: the cell is freed, the other cells stay and the side changes back. */
  function Undo(b: Position, m: Move): (r: Position)
    ensures Cell(r.cells, m.x, m.y) == FREE
    ensures forall x: Coord, y: Coord :: (x, y) != (m.x, m.y) ==> Cell(r.cells, x, y) == Cell(b.cells, x, y)
    ensures r.currentPlayer == 3 - b.currentPlayer
  {
    PreviousPlayer(b.(cells := b.cells[3 * m.x + m.y := FREE]))
  }

  lemma UndoPlay(b: Position, m: Move)
    requires Cell(b.cells, m.x, m.y) == FREE
    ensures Undo(Play(b, m), m) == b
  {
    assert Undo(Play(b, m), m).cells == b.cells;
  }

  /**
   * `getPossibleMoves`: the listed moves are exactly the free cells tagged with
   * the side to move, in row-major order and so each cell once.
   */
  function PossibleMoves(b: Position): (r: seq<Move>)
    ensures forall m :: m in r <==> Cell(b.cells, m.x, m.y) == FREE && m.player == b.currentPlayer
    ensures forall i, j :: 0 <= i < j < |r| ==> 3 * r[i].x + r[i].y < 3 * r[j].x + r[j].y
  {
    FreeMovesExact(b.cells, b.currentPlayer, 9);
    FreeMovesRowMajor(b.cells, b.currentPlayer, 9);
    FreeMoves(b.cells, b.currentPlayer, 9)
  }

  /** A new game is not over, scores 0 for X and offers all nine cells. */
  lemma NewPositionFacts()
    ensures !IsOver(NewPosition()) && Evaluate(NewPosition()) == 0
    ensures |PossibleMoves(NewPosition())| == 9
  {
  }

  /** The game the `fr.pixelprose` engine searches. */
  function PixelproseGame(): Game<Position, Move> {
    Game(IsOver, PossibleMoves, Play, Undo, NextPlayer, PreviousPlayer, Evaluate, MAX_EVALUATE_VALUE)
  }

  lemma PixelproseLawful()
    ensures Lawful(PixelproseGame())
  {
    var g := PixelproseGame();
    forall s, m | m in g.moves(s)
      ensures g.undo(g.play(s, m), m) == s
    {
      UndoPlay(s, m);
    }
  }

  /** A search depth `TicTacToeDifficulty` accepts. */
  type Depth = d: int | d > 0 witness 1

  /** `new TicTacToeDifficulty(depth)`: a depth of 0 or below is refused. */
  function Difficulty(depth: int): (r: Result<Depth>)
    ensures r.Success? <==> depth > 0
    ensures r.Success? ==> r.value == depth
  {
    if depth <= 0 then Failure("Depth must be > 0") else Success(depth)
  }

  class TicTacToeIA {
    const algo: Algorithm
    const depth: Depth
    const grid: array2<int>
    var currentPlayer: int

    ghost predicate Valid() reads this {
      grid.Length0 == GRID_SIZE && grid.Length1 == GRID_SIZE
    }

    /** The position the object holds. */
    function Snapshot(): Position
      reads this, grid
      requires Valid()
    {
      Position(GridCells(grid), currentPlayer)
    }

    /** The body of `TicTacToeIA(depth)` once the difficulty has been built. */
    constructor (depth: Depth)
      ensures Valid() && fresh(grid) && algo == MINIMAX && this.depth == depth
      ensures Snapshot() == NewPosition()
    {
      algo := MINIMAX;
      this.depth := depth;
      grid := new int[GRID_SIZE, GRID_SIZE];
      new;
      NewGame();
    }

    method NewGame()
      requires Valid()
      modifies this, grid
      ensures Valid() && Snapshot() == NewPosition()
    {
      ClearGrid(grid);
      currentPlayer := PLAYER_X;
    }

    method MakeMove(m: Move)
      requires Valid()
      modifies this, grid
      ensures Valid() && Snapshot() == PixelproseGame().play(old(Snapshot()), m)
    {
      grid[m.x, m.y] := currentPlayer;
      Next();
    }

    method UnmakeMove(m: Move)
      requires Valid()
      modifies this, grid
      ensures Valid() && Snapshot() == PixelproseGame().undo(old(Snapshot()), m)
    {
      grid[m.x, m.y] := FREE;
      Previous();
    }

    method Next()
      requires Valid()
      modifies this
      ensures Valid() && Snapshot() == PixelproseGame().next(old(Snapshot()))
    {
      currentPlayer := 3 - currentPlayer;
    }

    method Previous()
      requires Valid()
      modifies this
      ensures Valid() && Snapshot() == PixelproseGame().previous(old(Snapshot()))
    {
      currentPlayer := 3 - currentPlayer;
    }

    method GetPossibleMoves() returns (moves: seq<Move>)
      requires Valid()
      ensures moves == PixelproseGame().moves(Snapshot())
    {
      moves := ListFreeMoves(grid, currentPlayer);
    }

    /** The engine this object is: minimax over this position. */
    method Engine() returns (e: IA<Position, Move>)
      requires Valid()
      ensures fresh(e) && e.algo == algo && e.game == PixelproseGame() && e.state == Snapshot()
    {
      e := new IA(algo, PixelproseGame(), Snapshot());
    }

    /** `getBestMove`: the engine's search to the difficulty's depth. */
    method GetBestMove(engine: IA<Position, Move>) returns (best: Option<Move>)
      requires Valid() && engine.game == PixelproseGame() && engine.state == Snapshot()
      modifies engine
      ensures engine.state == old(engine.state)
      ensures best == PassChoice(PixelproseGame(), Snapshot(), depth, -MAX_EVALUATE_VALUE)
    {
      PixelproseLawful();
      best := engine.GetBestMove(depth);
    }
  }

  /** `new TicTacToeIA(depth)`: the difficulty is built first and may refuse the depth. */
  method NewTicTacToeIA(depth: int) returns (r: Result<TicTacToeIA>)
    ensures r.Failure? <==> depth <= 0
    ensures r.Success? ==> fresh(r.value) && r.value.Valid() && r.value.depth == depth
    ensures r.Success? ==> r.value.Snapshot() == NewPosition() && r.value.algo == MINIMAX
  {
    var d := Difficulty(depth);
    if d.Failure? {
      return Failure(d.error);
    }
    var ia := new TicTacToeIA(d.value);
    r := Success(ia);
  }
}
