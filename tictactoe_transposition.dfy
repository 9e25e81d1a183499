/**
 * `TicTacToeTranspositionIA`: tic-tac-toe for the transposition-table engine.
 * Besides the grid, side and turn it keeps an `int` hash, updated by every
 * move with `player << ((x + 3 * y) * 2)`: two bits per cell, so the hash of a
 * reachable board is the XOR of its cells' keys. The hash is the position's
 * transposition, the turn its group; after each search the lower groups are
 * evicted, and the whole table is cleared while a search cannot yet reach the
 * end of the game.
 *
 * `TicTacToeTransposition` is the fingerprint value with its `equals` and
 * `hashCode`.
 */
module TranspositionTicTacToe {
  import opened Wrappers
  import opened Games
  import opened Search
  import opened TranspositionTables
  import opened InlineTransposition
  import opened TicTacToe
  import opened Zobrist
  import PixelproseTicTacToe

  /** A board together with the hash the object keeps beside it. */
  datatype HashedBoard = HashedBoard(board: Board, hash: bv32)

  /** The position `newGame` sets up, with hash 0. */
  function NewHashedBoard(): HashedBoard {
    HashedBoard(NewBoard(), 0)
  }

  /** `b` shifted left by `n` places, one place at a time. */
  function ShiftLeft(b: bv32, n: nat): bv32
    decreases n
  {
    if n == 0 then b else ShiftLeft(b << 1, n - 1)
  }

  /** `player << ((x + GRID_SIZE * y) * 2)` on a 32-bit `int`; a free cell has key 0. */
  function Key(player: int, x: Coord, y: Coord): (k: bv32)
    ensures player == FREE ==> k == 0
  {
    Low32RoundTrip(0);
    ShiftZero(2 * (x + 3 * y));
    ShiftLeft(Low32(player), 2 * (x + 3 * y))
  }

  /** The key of the cell at row-major index `k`. */
  function CellKey(c: Cells, k: nat): bv32
    requires k < 9
  {
    Key(c[k], k / 3, k % 3)
  }

  /** The keys of the nine cells, in row-major order. */
  function CellKeys(c: Cells): (ks: seq<bv32>)
    ensures |ks| == 9 && forall k :: 0 <= k < 9 ==> ks[k] == CellKey(c, k)
  {
    seq(9, k requires 0 <= k < 9 => CellKey(c, k))
  }

  /** The hash a board should carry: the XOR of the keys of all its cells. */
  function BoardHash(c: Cells): bv32 {
    XorKeys(CellKeys(c))
  }

  /** The invariant `makeMove` and `unmakeMove` keep when moves are played on free cells. */
  predicate HashMatches(h: HashedBoard) {
    h.hash == BoardHash(h.board.cells)
  }

  lemma {:induction false} ShiftZero(n: nat)
    ensures ShiftLeft(0, n) == 0
  {
    if n > 0 {
      ShiftZero(n - 1);
    }
  }

  /** Replacing one element changes the fold by the old element and the new one, when every element is its own inverse. */
  lemma FoldUpdate<T(!new)>(f: (T, T) -> T, z: T, s: seq<T>, i: nat, n: T)
    requires CommutativeMonoid(f, z) && (forall x :: f(x, x) == z) && i < |s|
    ensures Fold(f, z, s[i := n]) == f(f(Fold(f, z, s), s[i]), n)
  {
    var t := s[i := n];
    FoldRemove(f, z, s, i);
    FoldRemove(f, z, t, i);
    assert t[..i] + t[i + 1..] == s[..i] + s[i + 1..];
    var r := Fold(f, z, s[..i] + s[i + 1..]);
    assert f(f(r, s[i]), s[i]) == f(r, f(s[i], s[i])) == f(z, r) == r;
  }

  lemma XorSelfInverse()
    ensures forall x :: Xor(x, x) == 0
  {
    forall x: bv32
      ensures Xor(x, x) == 0
    {
    }
  }

  /** Replacing one key changes the XOR by the old key and the new one. */
  lemma XorKeysUpdate(s: seq<bv32>, i: nat, n: bv32)
    requires i < |s|
    ensures XorKeys(s[i := n]) == Xor(Xor(XorKeys(s), s[i]), n)
  {
    XorMonoid();
    XorSelfInverse();
    FoldUpdate(Xor, 0, s, i, n);
  }

  lemma CellKeysUpdate(c: Cells, i: nat, v: int)
    requires i < 9
    ensures CellKeys(c[i := v]) == CellKeys(c)[i := CellKey(c[i := v], i)]
  {
  }

  /** Changing one cell changes the hash by the XOR of its old and new keys. */
  lemma BoardHashUpdate(c: Cells, i: nat, v: int)
    requires i < 9
    ensures BoardHash(c[i := v]) == Xor(Xor(BoardHash(c), CellKey(c, i)), CellKey(c[i := v], i))
  {
    CellKeysUpdate(c, i, v);
    XorKeysUpdate(CellKeys(c), i, CellKey(c[i := v], i));
  }

  /** The key of `grid[x][y]` is the one of its row-major index. */
  lemma CellKeyAt(c: Cells, x: Coord, y: Coord)
    ensures CellKey(c, 3 * x + y) == Key(Cell(c, x, y), x, y)
  {
    assert (3 * x + y) / 3 == x && (3 * x + y) % 3 == y;
  }

  lemma {:induction false} XorKeysZeros(s: seq<bv32>)
    requires forall k :: 0 <= k < |s| ==> s[k] == 0
    ensures XorKeys(s) == 0
  {
    if s != [] {
      XorKeysZeros(s[..|s| - 1]);
    }
  }

  lemma EmptyKeys()
    ensures forall k :: 0 <= k < 9 ==> CellKeys(EmptyCells())[k] == 0
  {
    forall k | 0 <= k < 9
      ensures CellKeys(EmptyCells())[k] == 0
    {
      assert EmptyCells()[k] == FREE;
    }
  }

  lemma NewHashedBoardMatches()
    ensures HashMatches(NewHashedBoard())
  {
    EmptyKeys();
    XorKeysZeros(CellKeys(EmptyCells()));
  }

  function MoveHash(hash: bv32, m: Move): bv32 {
    hash ^ Key(m.player, m.x, m.y)
  }

  /**
   * `makeMove`: the move's own player takes the cell and its key enters the hash;
   * when that player is the side to move, the board moves as in `TicTacToeMinimax`.
   */
  function PlayHashed(h: HashedBoard, m: Move): (r: HashedBoard)
    ensures Cell(r.board.cells, m.x, m.y) == m.player
    ensures forall x: Coord, y: Coord :: (x, y) != (m.x, m.y) ==> Cell(r.board.cells, x, y) == Cell(h.board.cells, x, y)
    ensures r.board.turn == h.board.turn + 1 && r.board.currentPlayer == 3 - h.board.currentPlayer
    ensures m.player == h.board.currentPlayer ==> r.board == Play(h.board, m)
    ensures r.hash == h.hash ^ Key(m.player, m.x, m.y)
  {
    HashedBoard(NextPlayer(h.board.(cells := h.board.cells[3 * m.x + m.y := m.player], turn := h.board.turn + 1)),
                MoveHash(h.hash, m))
  }

  /** `unmakeMove`: the board moves back as in `TicTacToeMinimax` and the move's key leaves the hash. */
  function UndoHashed(h: HashedBoard, m: Move): (r: HashedBoard)
    ensures r.board == Undo(h.board, m)
    ensures r.hash == h.hash ^ Key(m.player, m.x, m.y)
  {
    HashedBoard(PreviousPlayer(h.board.(cells := h.board.cells[3 * m.x + m.y := FREE], turn := h.board.turn - 1)),
                MoveHash(h.hash, m))
  }

  /** A key XORed into a matching hash. */
  lemma HashIn(hash: bv32, r: bv32, k: bv32)
    requires r == Xor(Xor(hash, 0), k)
    ensures hash ^ k == r
  {
  }

  /** A key XORed out of a matching hash. */
  lemma HashOut(hash: bv32, r: bv32, k: bv32)
    requires r == Xor(Xor(hash, k), 0)
    ensures hash ^ k == r
  {
  }

  /** Writing into a cell whose key is 0 XORs the new key into the hash. */
  lemma WriteFreeCell(c: Cells, i: nat, v: int, hash: bv32, k: bv32)
    requires i < 9 && hash == BoardHash(c) && CellKey(c, i) == 0 && CellKey(c[i := v], i) == k
    ensures hash ^ k == BoardHash(c[i := v])
  {
    BoardHashUpdate(c, i, v);
    HashIn(hash, BoardHash(c[i := v]), k);
  }

  /** Freeing a cell whose key is `k` XORs `k` out of the hash. */
  lemma FreeCell(c: Cells, i: nat, hash: bv32, k: bv32)
    requires i < 9 && hash == BoardHash(c) && CellKey(c, i) == k && CellKey(c[i := FREE], i) == 0
    ensures hash ^ k == BoardHash(c[i := FREE])
  {
    BoardHashUpdate(c, i, FREE);
    HashOut(hash, BoardHash(c[i := FREE]), k);
  }

  lemma FreeCellKey(c: Cells, i: nat)
    requires i < 9 && c[i] == FREE
    ensures CellKey(c, i) == 0
  {
    assert Key(c[i], i / 3, i % 3) == 0;
  }

  lemma WrittenCellKey(c: Cells, x: Coord, y: Coord, v: int)
    ensures CellKey(c[3 * x + y := v], 3 * x + y) == Key(v, x, y)
  {
    CellKeyAt(c[3 * x + y := v], x, y);
  }

  lemma HeldCellKey(c: Cells, x: Coord, y: Coord, v: int)
    requires Cell(c, x, y) == v
    ensures CellKey(c, 3 * x + y) == Key(v, x, y)
  {
    CellKeyAt(c, x, y);
  }

  /** Taking a free cell XORs the move's key into the hash of the cells. */
  lemma PlayMatches(c: Cells, hash: bv32, m: Move)
    requires hash == BoardHash(c) && Cell(c, m.x, m.y) == FREE
    ensures MoveHash(hash, m) == BoardHash(c[3 * m.x + m.y := m.player])
  {
    FreeCellKey(c, 3 * m.x + m.y);
    WrittenCellKey(c, m.x, m.y, m.player);
    WriteFreeCell(c, 3 * m.x + m.y, m.player, hash, Key(m.player, m.x, m.y));
  }

  /** Freeing the move's cell XORs its key out of the hash of the cells. */
  lemma UndoMatches(c: Cells, hash: bv32, m: Move)
    requires hash == BoardHash(c) && Cell(c, m.x, m.y) == m.player
    ensures MoveHash(hash, m) == BoardHash(c[3 * m.x + m.y := FREE])
  {
    HeldCellKey(c, m.x, m.y, m.player);
    FreeCellKey(c[3 * m.x + m.y := FREE], 3 * m.x + m.y);
    FreeCell(c, 3 * m.x + m.y, hash, Key(m.player, m.x, m.y));
  }

  lemma PlayHashedMatches(h: HashedBoard, m: Move)
    requires HashMatches(h) && Cell(h.board.cells, m.x, m.y) == FREE
    ensures HashMatches(PlayHashed(h, m))
  {
    PlayMatches(h.board.cells, h.hash, m);
  }

  lemma UndoHashedMatches(h: HashedBoard, m: Move)
    requires HashMatches(h) && Cell(h.board.cells, m.x, m.y) == m.player
    ensures HashMatches(UndoHashed(h, m))
  {
    UndoMatches(h.board.cells, h.hash, m);
  }

  lemma UndoPlayHashed(h: HashedBoard, m: Move)
    requires Cell(h.board.cells, m.x, m.y) == FREE
    ensures UndoHashed(PlayHashed(h, m), m) == h
  {
    assert UndoHashed(PlayHashed(h, m), m).board.cells == h.board.cells;
  }

  /** `getTransposition`: the hash, which on a matching board is the XOR of its cells' keys. */
  function TranspositionKey(h: HashedBoard): (t: bv32)
    ensures HashMatches(h) ==> t == BoardHash(h.board.cells)
  {
    h.hash
  }

  /** `getGroup`: the turn, which every move raises by one and every take-back lowers by one. */
  function Group(h: HashedBoard): (g: int)
    ensures forall m :: PlayHashed(h, m).board.turn == g + 1 && UndoHashed(h, m).board.turn == g - 1
  {
    h.board.turn
  }

  /** `clearGroupsAfterSearch`. */
  const CLEAR_GROUPS_AFTER_SEARCH: bool := true

  function HashedNext(h: HashedBoard): HashedBoard {
    h.(board := NextPlayer(h.board))
  }

  function HashedPrevious(h: HashedBoard): HashedBoard {
    h.(board := PreviousPlayer(h.board))
  }

  function HashedIsOver(h: HashedBoard): bool {
    IsOver(h.board)
  }

  function HashedMoves(h: HashedBoard): seq<Move> {
    PossibleMoves(h.board)
  }

  function HashedEvaluate(h: HashedBoard): int {
    Evaluate(h.board)
  }

  /** The game the engine searches: the rules of `TicTacToeMinimax`, the moves played as listed. */
  function HashedGame(): Game<HashedBoard, Move> {
    Game(HashedIsOver, HashedMoves, PlayHashed, UndoHashed, HashedNext, HashedPrevious, HashedEvaluate, 3)
  }

  lemma HashedLawful()
    ensures Lawful(HashedGame())
  {
    var g := HashedGame();
    forall s, m | m in g.moves(s)
      ensures g.undo(g.play(s, m), m) == s
    {
      assert m in PossibleMoves(s.board);
      UndoPlayHashed(s, m);
    }
  }

  /** Along any play of listed moves, the hash stays the XOR of the cells' keys. */
  lemma ListedMoveMatches(h: HashedBoard, m: Move)
    requires HashMatches(h) && m in HashedMoves(h)
    ensures HashMatches(PlayHashed(h, m))
  {
    assert m in PossibleMoves(h.board);
    PlayHashedMatches(h, m);
  }

  method WriteCell(g: array2<int>, x: Coord, y: Coord, v: int)
    requires g.Length0 == GRID_SIZE && g.Length1 == GRID_SIZE
    modifies g
    ensures GridCells(g) == old(GridCells(g))[3 * x + y := v]
  {
    g[x, y] := v;
  }

  class TicTacToeTranspositionIA {
    const algo: Algorithm
    /** The depth of the difficulty the object was built with. */
    const depth: int
    const grid: array2<int>
    var currentPlayer: int
    var turn: int
    var hash: bv32

    ghost predicate Valid() reads this {
      grid.Length0 == GRID_SIZE && grid.Length1 == GRID_SIZE
    }

    /** The position the object holds. */
    function Snapshot(): HashedBoard
      reads this, grid
      requires Valid()
    {
      HashedBoard(Board(GridCells(grid), currentPlayer, turn), hash)
    }

    constructor (algo: Algorithm, depth: int)
      ensures Valid() && fresh(grid) && this.algo == algo && this.depth == depth
      ensures Snapshot() == NewHashedBoard() && HashMatches(Snapshot())
    {
      this.algo := algo;
      this.depth := depth;
      grid := new int[GRID_SIZE, GRID_SIZE];
      new;
      NewGame();
      NewHashedBoardMatches();
    }

    method NewGame()
      requires Valid()
      modifies this, grid
      ensures Valid() && Snapshot() == NewHashedBoard()
    {
      hash := 0;
      ClearGrid(grid);
      currentPlayer := PLAYER_X;
      turn := 0;
    }

    method MakeMove(m: Move)
      requires Valid()
      modifies this, grid
      ensures Valid() && Snapshot() == PlayHashed(old(Snapshot()), m)
    {
      var h := hash;
      WriteCell(grid, m.x, m.y, m.player);
      hash := MoveHash(h, m);
      turn := turn + 1;
      Next();
    }

    method UnmakeMove(m: Move)
      requires Valid()
      modifies this, grid
      ensures Valid() && Snapshot() == UndoHashed(old(Snapshot()), m)
    {
      var h := hash;
      WriteCell(grid, m.x, m.y, FREE);
      hash := MoveHash(h, m);
      turn := turn - 1;
      Previous();
    }

    method Next()
      requires Valid()
      modifies this
      ensures Valid() && Snapshot() == HashedNext(old(Snapshot()))
    {
      currentPlayer := 3 - currentPlayer;
    }

    method Previous()
      requires Valid()
      modifies this
      ensures Valid() && Snapshot() == HashedPrevious(old(Snapshot()))
    {
      currentPlayer := 3 - currentPlayer;
    }

    method GetPossibleMoves() returns (moves: seq<Move>)
      requires Valid()
      ensures moves == HashedMoves(Snapshot())
    {
      moves := ListFreeMoves(grid, currentPlayer);
    }

    /**
     * The engine this object is: it searches this position with this
     * algorithm, the hash as the transposition (and as its only symmetric
     * one), the turn as the group, no eviction before the search and
     * eviction after it.
     */
    method Engine() returns (e: TranspositionIA<HashedBoard, Move, bv32>)
      requires Valid()
      ensures fresh(e) && fresh(e.cache) && e.cache.tables == map[]
      ensures e.algo == algo && e.game == HashedGame() && e.state == Snapshot()
      ensures e.grouping == Ordered(Group) && e.transposition == TranspositionKey
      ensures !e.clearBefore && e.clearAfter == CLEAR_GROUPS_AFTER_SEARCH
    {
      e := new TranspositionIA(algo, HashedGame(), Snapshot(), Ordered(Group), TranspositionKey,
                               h => [TranspositionKey(h)], false, CLEAR_GROUPS_AFTER_SEARCH);
    }

    /**
     * `getBestMove`: the engine's search, then the whole table is dropped exactly
     * when `turn + depth < MAX_TURN`; otherwise the groups from the current turn
     * on are left with every key they held before.
     */
    method GetBestMove(engine: TranspositionIA<HashedBoard, Move, bv32>) returns (r: Result<Option<Move>>)
      requires Valid() && engine.algo == algo && engine.game == HashedGame() && engine.state == Snapshot()
      requires engine.grouping == Ordered(Group) && engine.clearAfter == CLEAR_GROUPS_AFTER_SEARCH
      modifies engine, engine.cache
      ensures engine.state == old(engine.state)
      ensures r.Failure? <==> depth <= 0
      ensures r.Success? && r.value.Some? ==> r.value.value in HashedMoves(Snapshot())
      ensures r.Success? && turn + depth < MAX_TURN ==> engine.cache.tables == map[]
      ensures r.Success? ==> forall g :: g in engine.cache.tables ==> turn <= g
      ensures r.Success? && turn + depth >= MAX_TURN ==> Extends(Evict(old(engine.cache.tables), turn), engine.cache.tables)
    {
      HashedLawful();
      r := engine.GetBestMove(depth);
      if r.Success? && turn + depth < MAX_TURN {
        engine.ClearTranspositionTable();
      }
    }
  }

  /**
   * `new TicTacToeTranspositionIA(algo, depth)`: the difficulty is built first
   * and refuses a depth of 0 or below.
   */
  method NewTicTacToeTranspositionIA(algo: Algorithm, depth: int) returns (r: Result<TicTacToeTranspositionIA>)
    ensures r.Failure? <==> depth <= 0
    ensures r.Success? ==> fresh(r.value) && fresh(r.value.grid) && r.value.Valid()
    ensures r.Success? ==> r.value.algo == algo && r.value.depth == depth
    ensures r.Success? ==> r.value.Snapshot() == NewHashedBoard() && HashMatches(r.value.Snapshot())
  {
    var d := PixelproseTicTacToe.Difficulty(depth);
    if d.Failure? {
      return Failure(d.error);
    }
    var ia := new TicTacToeTranspositionIA(algo, d.value);
    r := Success(ia);
  }

  /** `TicTacToeTransposition`: a hash and the side to move. */
  datatype TicTacToeTransposition = TicTacToeTransposition(hash: bv32, currentPlayer: int)

  /** What `equals` may be handed: `null`, a fingerprint, or any other object. */
  datatype Object = Null | Fingerprint(value: TicTacToeTransposition) | OtherObject

  /** `hashCode`: the hash, so that fingerprints `equals` to this one have the same hash code. */
  function HashCode(t: TicTacToeTransposition): (h: bv32)
    ensures forall u :: Equals(t, Fingerprint(u)) ==> h == u.hash
  {
    t.hash
  }

  /** `equals`: a non-null fingerprint with the same hash and the same side. */
  function Equals(t: TicTacToeTransposition, o: Object): (r: bool)
    ensures r <==> o == Fingerprint(t)
  {
    o != Null && o.Fingerprint? && o.value.hash == t.hash && o.value.currentPlayer == t.currentPlayer
  }

  lemma EqualsIsEquivalence(t: TicTacToeTransposition, u: TicTacToeTransposition, w: TicTacToeTransposition)
    ensures Equals(t, Fingerprint(t))
    ensures Equals(t, Fingerprint(u)) <==> Equals(u, Fingerprint(t))
    ensures Equals(t, Fingerprint(u)) && Equals(u, Fingerprint(w)) ==> Equals(t, Fingerprint(w))
    ensures !Equals(t, Null) && !Equals(t, OtherObject)
  {
  }

  lemma EqualsHashCode(t: TicTacToeTransposition, u: TicTacToeTransposition)
    requires Equals(t, Fingerprint(u))
    ensures HashCode(t) == HashCode(u)
  {
  }

  /** The same hash with the other side to move is another fingerprint. */
  lemma SideMatters(t: TicTacToeTransposition, u: TicTacToeTransposition)
    requires t.hash == u.hash && t.currentPlayer != u.currentPlayer
    ensures !Equals(t, Fingerprint(u)) && HashCode(t) == HashCode(u)
  {
  }
}
