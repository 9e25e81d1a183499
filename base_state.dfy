/**
 * `BaseState`, the position shared by the test engines: a grid of 64 cells,
 * a turn counter and the side to move, 0 or 1. A move takes one cell by its
 * position; `next` and `previous` step the side to move and wrap around.
 */
module BaseStates {
  const SIZE: int := 8
  const GRID_SIZE: int := SIZE * SIZE
  const EMPTY_CELL: int := -1

  /** An `IAMove`: the position of the cell it takes. */
  datatype IAMove = IAMove(position: int)

  /** The value of a `BaseState`: its cells, its turn and its side to move. */
  datatype State = State(grid: seq<int>, turn: int, currentPlayer: int)

  /** `next`: one up, and back to 0 past 1; it yields a side exactly from -1 on. */
  function NextPlayer(p: int): (r: int)
    ensures p == 0 || p == 1 ==> r == 1 - p
    ensures r == 0 || r == 1 <==> p >= -1
  {
    if p + 1 > 1 then 0 else p + 1
  }

  /** `previous`: one down, and back to 1 below 0; it yields a side exactly up to 2. */
  function PreviousPlayer(p: int): (r: int)
    ensures p == 0 || p == 1 ==> r == 1 - p
    ensures r == 0 || r == 1 <==> p <= 2
  {
    if p - 1 < 0 then 1 else p - 1
  }

  /** On the two sides, `next` and `previous` each undo the other. */
  lemma PlayerCycle(p: int)
    requires p == 0 || p == 1
    ensures PreviousPlayer(NextPlayer(p)) == p && NextPlayer(PreviousPlayer(p)) == p
  {
  }

  /** `clean`: every cell empty, turn 0, side 0. */
  function CleanState(): (r: State)
    ensures |r.grid| == GRID_SIZE && forall k :: 0 <= k < |r.grid| ==> r.grid[k] == EMPTY_CELL
    ensures r.turn == 0 && r.currentPlayer == 0
  {
    State(seq(GRID_SIZE, _ => EMPTY_CELL), 0, 0)
  }

  /** `makeMove`: the side to move takes the cell, the others stay, the turn advances and the side changes. */
  function Play(s: State, m: IAMove): (r: State)
    requires 0 <= m.position < |s.grid|
    ensures |r.grid| == |s.grid| && r.grid[m.position] == s.currentPlayer
    ensures forall k :: 0 <= k < |s.grid| && k != m.position ==> r.grid[k] == s.grid[k]
    ensures r.turn == s.turn + 1 && r.currentPlayer == NextPlayer(s.currentPlayer)
  {
    State(s.grid[m.position := s.currentPlayer], s.turn + 1, NextPlayer(s.currentPlayer))
  }

  /** `unmakeMove`: the cell is emptied, the others stay, the turn goes back and the side changes back. */
  function Undo(s: State, m: IAMove): (r: State)
    requires 0 <= m.position < |s.grid|
    ensures |r.grid| == |s.grid| && r.grid[m.position] == EMPTY_CELL
    ensures forall k :: 0 <= k < |s.grid| && k != m.position ==> r.grid[k] == s.grid[k]
    ensures r.turn == s.turn - 1 && r.currentPlayer == PreviousPlayer(s.currentPlayer)
  {
    State(s.grid[m.position := EMPTY_CELL], s.turn - 1, PreviousPlayer(s.currentPlayer))
  }

  /** A move on an empty cell, taken back, leaves the state as it was. */
  lemma UndoPlay(s: State, m: IAMove)
    requires 0 <= m.position < |s.grid| && s.grid[m.position] == EMPTY_CELL
    requires s.currentPlayer == 0 || s.currentPlayer == 1
    ensures Undo(Play(s, m), m) == s
  {
    assert Undo(Play(s, m), m).grid == s.grid;
  }

  /** Taking back the last move and playing it again restores the state too. */
  lemma PlayUndo(s: State, m: IAMove)
    requires 0 <= m.position < |s.grid| && s.grid[m.position] == PreviousPlayer(s.currentPlayer)
    requires s.currentPlayer == 0 || s.currentPlayer == 1
    ensures Play(Undo(s, m), m) == s
  {
    assert Play(Undo(s, m), m).grid == s.grid;
  }

  /** `System.arraycopy` of a whole array. */
  method CopyCells(source: array<int>, target: array<int>)
    requires source.Length == target.Length && source != target
    modifies target
    ensures target[..] == source[..]
  {
    for i := 0 to source.Length
      invariant forall k :: 0 <= k < i ==> target[k] == source[k]
    {
      target[i] := source[i];
    }
  }

  class BaseState {
    const grid: array<int>
    var turn: int
    var currentPlayer: int

    ghost predicate Valid() reads this {
      grid.Length == GRID_SIZE && (currentPlayer == 0 || currentPlayer == 1)
    }

    /** The state the object holds. */
    function Snapshot(): State
      reads this, grid
    {
      State(grid[..], turn, currentPlayer)
    }

    constructor ()
      ensures Valid() && fresh(grid) && Snapshot() == CleanState()
    {
      grid := new int[GRID_SIZE];
      new;
      Clean();
    }

    /** `clean`: `Arrays.fill` with `EMPTY_CELL`, then turn and side 0. */
    method Clean()
      requires grid.Length == GRID_SIZE
      modifies this, grid
      ensures Valid() && Snapshot() == CleanState()
    {
      for i := 0 to grid.Length
        invariant forall k :: 0 <= k < i ==> grid[k] == EMPTY_CELL
      {
        grid[i] := EMPTY_CELL;
      }
      turn := 0;
      currentPlayer := 0;
    }

    /** `clone`: a new state with the same turn, side and cells, in an array of its own. */
    method Clone() returns (c: BaseState)
      requires Valid()
      ensures fresh(c) && fresh(c.grid) && c.Valid() && c.Snapshot() == Snapshot()
    {
      c := new BaseState();
      c.turn := turn;
      c.currentPlayer := currentPlayer;
      CopyCells(grid, c.grid);
    }

    method MakeMove(m: IAMove)
      requires Valid() && 0 <= m.position < GRID_SIZE
      modifies this, grid
      ensures Valid() && Snapshot() == Play(old(Snapshot()), m)
    {
      grid[m.position] := currentPlayer;
      turn := turn + 1;
      Next();
    }

    method UnmakeMove(m: IAMove)
      requires Valid() && 0 <= m.position < GRID_SIZE
      modifies this, grid
      ensures Valid() && Snapshot() == Undo(old(Snapshot()), m)
    {
      grid[m.position] := EMPTY_CELL;
      turn := turn - 1;
      Previous();
    }

    method Next()
      requires Valid()
      modifies this
      ensures Valid() && turn == old(turn)
      ensures currentPlayer == NextPlayer(old(currentPlayer))
    {
      currentPlayer := currentPlayer + 1;
      if currentPlayer > 1 {
        currentPlayer := 0;
      }
    }

    method Previous()
      requires Valid()
      modifies this
      ensures Valid() && turn == old(turn)
      ensures currentPlayer == PreviousPlayer(old(currentPlayer))
    {
      currentPlayer := currentPlayer - 1;
      if currentPlayer < 0 {
        currentPlayer := 1;
      }
    }
  }
}
