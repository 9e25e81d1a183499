/**
 * The caching engine `TranspositionMinimax`: the four decision rules of `Minimax`
 * with every child score going through a hook that first looks the child
 * position up in the transposition table. The hooks run between `makeMove` and
 * `unmakeMove`, so the position looked up and stored is the child's. On a hit
 * the child is not searched; on a miss it is searched and the score is stored
 * under all the child's symmetric keys. The scores are stored as seen by the
 * maximizing side (`who * score`) for the minimax rules and as seen by the
 * player at the parent for the negamax rules.
 *
 * `TranspositionNegamax` of the `impl` package is the same engine restricted to
 * negamax, always using the table, and evicting the groups below the current
 * one after every search.
 */
module Transposition {
  import opened Wrappers
  import opened Games
  import opened Selection
  import opened Values
  import opened Search
  import opened TranspositionTables

  /** A node that is searched move by move: neither a leaf nor a pass. */
  predicate Inner<S, M>(g: Game<S, M>, s: S, depth: nat) {
    depth > 0 && !g.isOver(s) && |g.moves(s)| > 0
  }

  class TranspositionMinimax<S(!new), M(!new), K(==, !new)> {
    const algo: Algorithm
    const game: Game<S, M>
    const grouping: Grouping<S>
    /** The key of a position (`getTransposition`) and all the keys it is stored under (`getSymetricTranspositions`). */
    const transposition: S -> K
    const symmetric: S -> seq<K>
    /** The overridable switches `useTranspositionTable`, `clearGroupsBeforeSearch` and `clearGroupsAfterSearch`. */
    const useTable: bool
    const clearBefore: bool
    const clearAfter: bool
    const cache: TranspositionTable<K>
    var state: S

    constructor (algo: Algorithm, game: Game<S, M>, start: S, grouping: Grouping<S>,
                 transposition: S -> K, symmetric: S -> seq<K>,
                 useTable: bool, clearBefore: bool, clearAfter: bool)
      ensures this.algo == algo && this.game == game && state == start && this.grouping == grouping
      ensures this.transposition == transposition && this.symmetric == symmetric
      ensures this.useTable == useTable && this.clearBefore == clearBefore && this.clearAfter == clearAfter
      ensures fresh(cache) && cache.tables == map[]
    {
      this.algo := algo;
      this.game := game;
      state := start;
      this.grouping := grouping;
      this.transposition := transposition;
      this.symmetric := symmetric;
      this.useTable := useTable;
      this.clearBefore := clearBefore;
      this.clearAfter := clearAfter;
      cache := new TranspositionTable();
    }

    /**
     * `TranspositionNegamax`: the negamax rule, whose hook consults the table
     * unconditionally, and which evicts the lower groups after each search.
     */
    constructor TranspositionNegamax(game: Game<S, M>, start: S, grouping: Grouping<S>,
                                     transposition: S -> K, symmetric: S -> seq<K>)
      ensures algo == NEGAMAX && this.game == game && state == start && this.grouping == grouping
      ensures this.transposition == transposition && this.symmetric == symmetric
      ensures useTable && !clearBefore && clearAfter
      ensures fresh(cache) && cache.tables == map[]
    {
      algo := NEGAMAX;
      this.game := game;
      state := start;
      this.grouping := grouping;
      this.transposition := transposition;
      this.symmetric := symmetric;
      useTable := true;
      clearBefore := false;
      clearAfter := true;
      cache := new TranspositionTable();
    }

    method MakeMove(m: M)
      modifies this
      ensures state == game.play(old(state), m)
    {
      state := game.play(state, m);
    }

    method UnmakeMove(m: M)
      modifies this
      ensures state == game.undo(old(state), m)
    {
      state := game.undo(state, m);
    }

    method Next()
      modifies this
      ensures state == game.next(old(state))
    {
      state := game.next(state);
    }

    method Previous()
      modifies this
      ensures state == game.previous(old(state))
    {
      state := game.previous(state);
    }

    /** `clearGroups(getGroup())`: evicts every group below the current position's. */
    method ClearGroups()
      modifies cache
      ensures cache.tables == if CurrentGroup(grouping, state).Some?
                              then Evict(old(cache.tables), CurrentGroup(grouping, state).value)
                              else old(cache.tables)
    {
      cache.ClearGroups(CurrentGroup(grouping, state));
    }

    method ClearTranspositionTable()
      modifies cache
      ensures cache.tables == map[]
    {
      cache.Clear();
    }

    /**
     * The table is off and the window is the full one the root is searched with
     * or lies inside it: the searches then behave exactly as the uncached rules.
     */
    ghost predicate Exact(alpha: int, beta: int) {
      !useTable && -game.maxEvaluateValue <= alpha < beta <= game.maxEvaluateValue
    }

    /**
     * Evicts before the search when `clearBefore` holds (even when the depth is
     * then rejected), searches with the configured rule, and evicts after the
     * search when `clearAfter` holds. With the table off the move is the one
     * plain minimax picks.
     */
    method GetBestMove(depth: int) returns (r: Result<Option<M>>)
      requires Reversible(game)
      modifies this, cache
      ensures state == old(state)
      ensures r.Failure? <==> depth <= 0
      ensures r.Success? && r.value.Some? ==> r.value.value in game.moves(old(state))
      ensures !useTable && Lawful(game) && depth > 0 ==> r == Success(MinimaxChoice(game, old(state), depth))
      ensures clearAfter && depth > 0 && CurrentGroup(grouping, state).Some? ==>
              forall h :: h in cache.tables ==> CurrentGroup(grouping, state).value <= h
      ensures !clearBefore && !clearAfter ==> Extends(old(cache.tables), cache.tables)
      ensures depth > 0 ==> Extends(if (clearBefore || clearAfter) && CurrentGroup(grouping, state).Some?
                                    then Evict(old(cache.tables), CurrentGroup(grouping, state).value)
                                    else old(cache.tables), cache.tables)
      ensures !useTable && !clearBefore && !clearAfter ==> cache.tables == old(cache.tables)
      ensures depth <= 0 ==> cache.tables == if clearBefore && CurrentGroup(grouping, state).Some?
                                             then Evict(old(cache.tables), CurrentGroup(grouping, state).value)
                                             else old(cache.tables)
    {
      ghost var t0 := cache.tables;
      if clearBefore {
        ClearGroups();
      }
      if depth <= 0 {
        return Failure("Search depth MUST be > 0");
      }
      ghost var t1 := cache.tables;
      var best: Option<M>;
      match algo {
        case MINIMAX => best := MinimaxRoot(depth);
        case ALPHA_BETA => best := AlphaBetaRoot(depth);
        case NEGAMAX => best := NegamaxRoot(depth);
        case NEGASCOUT => best := NegascoutRoot(depth);
      }
      ghost var t2 := cache.tables;
      if clearAfter {
        ClearGroups();
      }
      if clearAfter && CurrentGroup(grouping, state).Some? {
        ghost var g := CurrentGroup(grouping, state).value;
        EvictMonotone(t1, t2, g);
        if clearBefore {
          EvictTwice(t0, g);
        }
      }
      return Success(best);
    }

    /** The root call of plain minimax, for the maximizing player. */
    method MinimaxRoot(depth: nat) returns (best: Option<M>)
      requires Reversible(game)
      modifies this, cache
      ensures state == old(state)
      ensures Extends(old(cache.tables), cache.tables)
      ensures !useTable ==> cache.tables == old(cache.tables)
      ensures !useTable ==> best == MinimaxChoice(game, old(state), depth)
      ensures best.Some? ==> best.value in game.moves(old(state))
    {
      var _, b := Minimax(depth, 1);
      best := b;
    }

    /** The root call of alpha-beta with the window `(-maxEvaluateValue, maxEvaluateValue)`. */
    method AlphaBetaRoot(depth: nat) returns (best: Option<M>)
      requires Reversible(game)
      modifies this, cache
      ensures state == old(state)
      ensures Extends(old(cache.tables), cache.tables)
      ensures !useTable ==> cache.tables == old(cache.tables)
      ensures !useTable && EvalBounded(game) ==> best == MinimaxChoice(game, old(state), depth)
      ensures best.Some? ==> best.value in game.moves(old(state))
    {
      ghost var s0 := state;
      if EvalBounded(game) {
        assert -game.maxEvaluateValue < game.evaluate(s0) < game.maxEvaluateValue;
      }
      var _, b := AlphaBeta(depth, 1, -game.maxEvaluateValue, game.maxEvaluateValue);
      if !useTable && EvalBounded(game) {
        AlphaBetaRootMove(game, s0, depth, b);
      }
      best := b;
    }

    /** The root call of negamax, which picks the move minimax picks when the table is off. */
    method NegamaxRoot(depth: nat) returns (best: Option<M>)
      requires Reversible(game)
      modifies this, cache
      ensures state == old(state)
      ensures Extends(old(cache.tables), cache.tables)
      ensures !useTable ==> cache.tables == old(cache.tables)
      ensures !useTable && EvalBounded(game) ==> best == MinimaxChoice(game, old(state), depth)
      ensures best.Some? ==> best.value in game.moves(old(state))
    {
      ghost var s0 := state;
      if EvalBounded(game) {
        assert -game.maxEvaluateValue < game.evaluate(s0) < game.maxEvaluateValue;
      }
      var _, b := Negamax(depth, -game.maxEvaluateValue, game.maxEvaluateValue);
      if !useTable && EvalBounded(game) {
        NegamaxRootMove(game, s0, depth, b);
      }
      best := b;
    }

    /** The root call of negascout, which picks the move negamax picks. */
    method NegascoutRoot(depth: nat) returns (best: Option<M>)
      requires Reversible(game)
      modifies this, cache
      ensures state == old(state)
      ensures Extends(old(cache.tables), cache.tables)
      ensures !useTable ==> cache.tables == old(cache.tables)
      ensures !useTable && EvalBounded(game) ==> best == MinimaxChoice(game, old(state), depth)
      ensures best.Some? ==> best.value in game.moves(old(state))
    {
      ghost var s0 := state;
      if EvalBounded(game) {
        assert -game.maxEvaluateValue < game.evaluate(s0) < game.maxEvaluateValue;
      }
      var _, b := Negascout(depth, -game.maxEvaluateValue, game.maxEvaluateValue);
      if !useTable && EvalBounded(game) {
        NegamaxRootMove(game, s0, depth, b);
      }
      best := b;
    }

    /**
     * Looks the current position up and, on a miss, stores `v` under its
     * symmetric keys; `present` says whether its group's table existed when the
     * lookup was made, before the child was searched.
     */
    method SaveTransposition(present: bool, v: int)
      requires present ==> GroupKey(grouping, state) in cache.tables
      modifies cache
      ensures cache.tables == old(cache.tables)[GroupKey(grouping, state) :=
                PutAll(if present then old(cache.tables)[GroupKey(grouping, state)] else map[], symmetric(state), v)]
    {
      cache.Save(present, GroupKey(grouping, state), symmetric(state), v);
    }

    /** Since a scan began at `s0` with tables `t0`: the state is back and the tables only grew. */
    ghost predicate Kept(s0: S, t0: map<int, map<K, int>>)
      reads this, cache
    {
      state == s0 && Extends(t0, cache.tables) && (!useTable ==> cache.tables == t0)
    }

    method Minimax(depth: nat, who: int) returns (score: int, best: Option<M>)
      requires Reversible(game)
      modifies this, cache
      ensures state == old(state)
      ensures Extends(old(cache.tables), cache.tables)
      ensures !useTable ==> cache.tables == old(cache.tables)
      ensures !useTable ==> score == MinimaxValue(game, old(state), depth, who)
      ensures !useTable ==> best == Choice(game, old(state), depth, who, Seed(game, who))
      ensures best.Some? ==> best.value in game.moves(old(state))
      decreases depth, 2
    {
      if depth == 0 || game.isOver(state) {
        return who * game.evaluate(state), None;
      }
      var moves := game.moves(state);
      if |moves| == 0 {
        Next();
        score := MinimaxScore(depth, who);
        Previous();
        return score, None;
      }
      score, best := MinimaxMoves(depth, moves, who);
    }

    /**
     * The scan of the moves of a node that is neither a leaf nor a pass. With the
     * table off its result is the best of the children's minimax values.
     */
    method MinimaxMoves(depth: nat, moves: seq<M>, who: int) returns (score: int, best: Option<M>)
      requires Reversible(game) && depth >= 1
      requires moves == game.moves(state)
      modifies this, cache
      ensures Kept(old(state), old(cache.tables))
      ensures !useTable ==> score == Best(who > 0, Seed(game, who), ChildValues(game, old(state), moves, depth - 1, who))
      ensures !useTable ==> best == MoveAt(moves, BestIndex(who > 0, Seed(game, who), ChildValues(game, old(state), moves, depth - 1, who)))
      ensures best.Some? ==> best.value in moves
      decreases depth, 1
    {
      ghost var s0 := state;
      ghost var t0 := cache.tables;
      ghost var vals := ChildValues(game, s0, moves, depth - 1, who);
      var maximizing := who > 0;
      var bestScore := if maximizing then -game.maxEvaluateValue else game.maxEvaluateValue;
      best := None;
      var i := 0;
      while i < |moves|
        invariant 0 <= i <= |moves| && Kept(s0, t0)
        invariant best.Some? ==> best.value in moves
        invariant !useTable ==> bestScore == Best(maximizing, Seed(game, who), vals[..i])
        invariant !useTable ==> best == MoveAt(moves, BestIndex(maximizing, Seed(game, who), vals[..i]))
      {
        ghost var before := cache.tables;
        MakeMove(moves[i]);
        var sc := MinimaxScore(depth, who);
        UnmakeMove(moves[i]);
        ExtendsTransitive(t0, before, cache.tables);
        assert vals[..i + 1][..i] == vals[..i];
        if (maximizing && sc > bestScore) || (!maximizing && sc < bestScore) {
          bestScore := sc;
          best := Some(moves[i]);
        }
        i := i + 1;
      }
      assert vals[..i] == vals;
      score := bestScore;
    }

    /**
     * The cached child score of the minimax rule: on a hit `who` times the stored
     * entry, on a miss the searched score, stored as `who` times it.
     */
    method MinimaxScore(depth: nat, who: int) returns (score: int)
      requires Reversible(game) && depth >= 1
      modifies this, cache
      ensures state == old(state)
      ensures Extends(old(cache.tables), cache.tables)
      ensures !useTable ==> cache.tables == old(cache.tables)
      ensures !useTable ==> score == MinimaxValue(game, old(state), depth - 1, -who)
      ensures useTable ==> CachedByWho(old(cache.tables), cache.tables, old(state), who, score)
      decreases depth, 0
    {
      if !useTable {
        var r, _ := Minimax(depth - 1, -who);
        return r;
      }
      var g := GroupKey(grouping, state);
      var t := transposition(state);
      var present := g in cache.tables;
      if present && t in cache.tables[g] {
        score := who * cache.tables[g][t];
      } else {
        ghost var fetched := cache.tables;
        var r, _ := Minimax(depth - 1, -who);
        score := r;
        SaveTransposition(present, who * score);
        SaveExtends(fetched, fetched, old(cache.tables), present, g, symmetric(state), who * score);
      }
    }

    method AlphaBeta(depth: nat, who: int, alpha: int, beta: int) returns (score: int, best: Option<M>)
      requires Reversible(game)
      modifies this, cache
      ensures state == old(state)
      ensures Extends(old(cache.tables), cache.tables)
      ensures !useTable ==> cache.tables == old(cache.tables)
      ensures Exact(alpha, beta) ==> Bracketed(score, MinimaxValue(game, old(state), depth, who), alpha, beta)
      ensures Exact(alpha, beta) && (if who > 0 then MinimaxValue(game, old(state), depth, who) < beta
                                     else alpha < MinimaxValue(game, old(state), depth, who)) ==>
              best == Choice(game, old(state), depth, who, if who > 0 then alpha else beta)
      ensures Inner(game, old(state), depth) ==> if who > 0 then alpha <= score else score <= beta
      ensures best.Some? ==> best.value in game.moves(old(state))
      decreases depth, 2
    {
      if depth == 0 || game.isOver(state) {
        return who * game.evaluate(state), None;
      }
      var moves := game.moves(state);
      if |moves| == 0 {
        Next();
        score := AlphaBetaScore(depth, who, alpha, beta);
        Previous();
        return score, None;
      }
      if who > 0 {
        score, best := AlphaBetaMax(depth, moves, who, alpha, beta);
      } else {
        score, best := AlphaBetaMin(depth, moves, who, alpha, beta);
      }
    }

    /**
     * The maximizing loop of alpha-beta, which raises `alpha` and cuts once it
     * reaches `beta`. With the table off and a window inside the full one its
     * result brackets the best of the children's minimax values.
     */
    method AlphaBetaMax(depth: nat, moves: seq<M>, who: int, alpha: int, beta: int) returns (score: int, best: Option<M>)
      requires Reversible(game) && depth >= 1 && who > 0
      requires moves == game.moves(state)
      modifies this, cache
      ensures Kept(old(state), old(cache.tables))
      ensures Exact(alpha, beta) ==>
              Bracketed(score, Best(true, Seed(game, who), ChildValues(game, old(state), moves, depth - 1, who)), alpha, beta)
      ensures Exact(alpha, beta) && Best(true, Seed(game, who), ChildValues(game, old(state), moves, depth - 1, who)) < beta ==>
              best == MoveAt(moves, BestIndex(true, alpha, ChildValues(game, old(state), moves, depth - 1, who)))
      ensures alpha <= score
      ensures best.Some? ==> best.value in moves
      decreases depth, 1
    {
      ghost var s0 := state;
      ghost var t0 := cache.tables;
      ghost var vals := ChildValues(game, s0, moves, depth - 1, who);
      best := None;
      var a := alpha;
      var i := 0;
      while i < |moves|
        invariant 0 <= i <= |moves| && Kept(s0, t0)
        invariant alpha <= a && (best.Some? ==> best.value in moves)
        invariant Exact(alpha, beta) ==> a < beta && a == Best(true, alpha, vals[..i])
        invariant Exact(alpha, beta) ==> best == MoveAt(moves, BestIndex(true, alpha, vals[..i]))
      {
        ghost var before := cache.tables;
        MakeMove(moves[i]);
        var sc := AlphaBetaScore(depth, who, a, beta);
        UnmakeMove(moves[i]);
        ExtendsTransitive(t0, before, cache.tables);
        if Exact(alpha, beta) {
          MaxStep(alpha, beta, vals, i, a, sc);
        }
        if sc > a {
          a := sc;
          best := Some(moves[i]);
          if a >= beta {
            if Exact(alpha, beta) {
              MaxCut(Seed(game, who), alpha, beta, vals, i, sc);
            }
            break;
          }
        }
        i := i + 1;
      }
      if Exact(alpha, beta) && a < beta {
        assert vals[..i] == vals;
        MaxExit(Seed(game, who), alpha, beta, vals);
      }
      score := a;
    }

    /** The minimizing loop of alpha-beta, which lowers `beta` and cuts once it reaches `alpha`. */
    method AlphaBetaMin(depth: nat, moves: seq<M>, who: int, alpha: int, beta: int) returns (score: int, best: Option<M>)
      requires Reversible(game) && depth >= 1 && who <= 0
      requires moves == game.moves(state)
      modifies this, cache
      ensures Kept(old(state), old(cache.tables))
      ensures Exact(alpha, beta) ==>
              Bracketed(score, Best(false, Seed(game, who), ChildValues(game, old(state), moves, depth - 1, who)), alpha, beta)
      ensures Exact(alpha, beta) && alpha < Best(false, Seed(game, who), ChildValues(game, old(state), moves, depth - 1, who)) ==>
              best == MoveAt(moves, BestIndex(false, beta, ChildValues(game, old(state), moves, depth - 1, who)))
      ensures score <= beta
      ensures best.Some? ==> best.value in moves
      decreases depth, 1
    {
      ghost var s0 := state;
      ghost var t0 := cache.tables;
      ghost var vals := ChildValues(game, s0, moves, depth - 1, who);
      best := None;
      var b := beta;
      var i := 0;
      while i < |moves|
        invariant 0 <= i <= |moves| && Kept(s0, t0)
        invariant b <= beta && (best.Some? ==> best.value in moves)
        invariant Exact(alpha, beta) ==> alpha < b && b == Best(false, beta, vals[..i])
        invariant Exact(alpha, beta) ==> best == MoveAt(moves, BestIndex(false, beta, vals[..i]))
      {
        ghost var before := cache.tables;
        MakeMove(moves[i]);
        var sc := AlphaBetaScore(depth, who, alpha, b);
        UnmakeMove(moves[i]);
        ExtendsTransitive(t0, before, cache.tables);
        if Exact(alpha, beta) {
          MinStep(alpha, beta, vals, i, b, sc);
        }
        if sc < b {
          b := sc;
          best := Some(moves[i]);
          if alpha >= b {
            if Exact(alpha, beta) {
              MinCut(Seed(game, who), alpha, beta, vals, i, sc);
            }
            break;
          }
        }
        i := i + 1;
      }
      if Exact(alpha, beta) && alpha < b {
        assert vals[..i] == vals;
        MinExit(Seed(game, who), alpha, beta, vals);
      }
      score := b;
    }

    /** The cached child score of alpha-beta, with the minimax rule's sign convention. */
    method AlphaBetaScore(depth: nat, who: int, alpha: int, beta: int) returns (score: int)
      requires Reversible(game) && depth >= 1
      modifies this, cache
      ensures state == old(state)
      ensures Extends(old(cache.tables), cache.tables)
      ensures !useTable ==> cache.tables == old(cache.tables)
      ensures Exact(alpha, beta) ==> Bracketed(score, MinimaxValue(game, old(state), depth - 1, -who), alpha, beta)
      ensures useTable ==> CachedByWho(old(cache.tables), cache.tables, old(state), who, score)
      decreases depth, 0
    {
      if !useTable {
        var r, _ := AlphaBeta(depth - 1, -who, alpha, beta);
        return r;
      }
      var g := GroupKey(grouping, state);
      var t := transposition(state);
      var present := g in cache.tables;
      if present && t in cache.tables[g] {
        score := who * cache.tables[g][t];
      } else {
        ghost var fetched := cache.tables;
        var r, _ := AlphaBeta(depth - 1, -who, alpha, beta);
        score := r;
        SaveTransposition(present, who * score);
        SaveExtends(fetched, fetched, old(cache.tables), present, g, symmetric(state), who * score);
      }
    }

    method Negamax(depth: nat, alpha: int, beta: int) returns (score: int, best: Option<M>)
      requires Reversible(game)
      modifies this, cache
      ensures state == old(state)
      ensures Extends(old(cache.tables), cache.tables)
      ensures !useTable ==> cache.tables == old(cache.tables)
      ensures Exact(alpha, beta) ==> Bracketed(score, NegamaxValue(game, old(state), depth), alpha, beta)
      ensures Exact(alpha, beta) && NegamaxValue(game, old(state), depth) < beta ==>
              best == NegamaxChoice(game, old(state), depth, alpha)
      ensures Inner(game, old(state), depth) ==> alpha <= score
      ensures best.Some? ==> best.value in game.moves(old(state))
      decreases depth, 2
    {
      if depth == 0 || game.isOver(state) {
        return game.evaluate(state), None;
      }
      var moves := game.moves(state);
      if |moves| == 0 {
        Next();
        score := NegamaxScore(depth, alpha, beta);
        Previous();
        return score, None;
      }
      score, best := NegamaxMoves(depth, moves, alpha, beta);
    }

    /**
     * The scan of the moves of a node that is neither a leaf nor a pass. With the
     * table off and a window inside the full one its result brackets the best of
     * the children's negated negamax values.
     */
    method NegamaxMoves(depth: nat, moves: seq<M>, alpha: int, beta: int) returns (score: int, best: Option<M>)
      requires Reversible(game) && depth >= 1
      requires moves == game.moves(state)
      modifies this, cache
      ensures Kept(old(state), old(cache.tables))
      ensures Exact(alpha, beta) ==>
              Bracketed(score, Best(true, -game.maxEvaluateValue, NegChildValues(game, old(state), moves, depth - 1)), alpha, beta)
      ensures Exact(alpha, beta) && Best(true, -game.maxEvaluateValue, NegChildValues(game, old(state), moves, depth - 1)) < beta ==>
              best == MoveAt(moves, BestIndex(true, alpha, NegChildValues(game, old(state), moves, depth - 1)))
      ensures alpha <= score
      ensures best.Some? ==> best.value in moves
      decreases depth, 1
    {
      ghost var s0 := state;
      ghost var t0 := cache.tables;
      ghost var vals := NegChildValues(game, s0, moves, depth - 1);
      best := None;
      var a := alpha;
      var i := 0;
      while i < |moves|
        invariant 0 <= i <= |moves| && Kept(s0, t0)
        invariant alpha <= a && (best.Some? ==> best.value in moves)
        invariant Exact(alpha, beta) ==> a < beta && a == Best(true, alpha, vals[..i])
        invariant Exact(alpha, beta) ==> best == MoveAt(moves, BestIndex(true, alpha, vals[..i]))
      {
        ghost var before := cache.tables;
        MakeMove(moves[i]);
        var sc := NegamaxScore(depth, a, beta);
        UnmakeMove(moves[i]);
        ExtendsTransitive(t0, before, cache.tables);
        if Exact(alpha, beta) {
          MaxStep(alpha, beta, vals, i, a, sc);
        }
        if sc > a {
          a := sc;
          best := Some(moves[i]);
          if a >= beta {
            if Exact(alpha, beta) {
              MaxCut(-game.maxEvaluateValue, alpha, beta, vals, i, sc);
            }
            break;
          }
        }
        i := i + 1;
      }
      if Exact(alpha, beta) && a < beta {
        assert vals[..i] == vals;
        MaxExit(-game.maxEvaluateValue, alpha, beta, vals);
      }
      score := a;
    }

    /** The cached child score of negamax: the entry is the score itself, for the player at the parent. */
    method NegamaxScore(depth: nat, alpha: int, beta: int) returns (score: int)
      requires Reversible(game) && depth >= 1
      modifies this, cache
      ensures state == old(state)
      ensures Extends(old(cache.tables), cache.tables)
      ensures !useTable ==> cache.tables == old(cache.tables)
      ensures Exact(alpha, beta) ==> Bracketed(score, -NegamaxValue(game, old(state), depth - 1), alpha, beta)
      ensures useTable ==> CachedByWho(old(cache.tables), cache.tables, old(state), 1, score)
      decreases depth, 0
    {
      if !useTable {
        var r, _ := Negamax(depth - 1, -beta, -alpha);
        return -r;
      }
      var g := GroupKey(grouping, state);
      var t := transposition(state);
      var present := g in cache.tables;
      if present && t in cache.tables[g] {
        score := cache.tables[g][t];
      } else {
        ghost var fetched := cache.tables;
        var r, _ := Negamax(depth - 1, -beta, -alpha);
        score := -r;
        SaveTransposition(present, score);
        SaveExtends(fetched, fetched, old(cache.tables), present, g, symmetric(state), score);
      }
    }

    method Negascout(depth: nat, alpha: int, beta: int) returns (score: int, best: Option<M>)
      requires Reversible(game)
      modifies this, cache
      ensures state == old(state)
      ensures Extends(old(cache.tables), cache.tables)
      ensures !useTable ==> cache.tables == old(cache.tables)
      ensures Exact(alpha, beta) ==> Bracketed(score, NegamaxValue(game, old(state), depth), alpha, beta)
      ensures Exact(alpha, beta) && NegamaxValue(game, old(state), depth) < beta ==>
              best == NegamaxChoice(game, old(state), depth, alpha)
      ensures Inner(game, old(state), depth) ==> alpha <= score
      ensures best.Some? ==> best.value in game.moves(old(state))
      decreases depth, 2
    {
      if depth == 0 || game.isOver(state) {
        return game.evaluate(state), None;
      }
      var moves := game.moves(state);
      var b := beta;
      if |moves| == 0 {
        Next();
        score := NegascoutScore(true, depth, alpha, beta, b);
        Previous();
        return score, None;
      }
      score, best := NegascoutMoves(depth, moves, alpha, beta);
    }

    /**
     * The scan of negascout: the first child with the full window, the others
     * with the null window `(a, a + 1)` first. With the table off and a window
     * inside the full one it brackets what negamax finds.
     */
    method NegascoutMoves(depth: nat, moves: seq<M>, alpha: int, beta: int) returns (score: int, best: Option<M>)
      requires Reversible(game) && depth >= 1
      requires moves == game.moves(state)
      modifies this, cache
      ensures Kept(old(state), old(cache.tables))
      ensures Exact(alpha, beta) ==>
              Bracketed(score, Best(true, -game.maxEvaluateValue, NegChildValues(game, old(state), moves, depth - 1)), alpha, beta)
      ensures Exact(alpha, beta) && Best(true, -game.maxEvaluateValue, NegChildValues(game, old(state), moves, depth - 1)) < beta ==>
              best == MoveAt(moves, BestIndex(true, alpha, NegChildValues(game, old(state), moves, depth - 1)))
      ensures alpha <= score
      ensures best.Some? ==> best.value in moves
      decreases depth, 1
    {
      var b := beta;
      ghost var s0 := state;
      ghost var t0 := cache.tables;
      ghost var vals := NegChildValues(game, s0, moves, depth - 1);
      best := None;
      var a := alpha;
      var first := true;
      var i := 0;
      while i < |moves|
        invariant 0 <= i <= |moves|
        invariant ScoutScanned(s0, t0, vals, moves, i, alpha, beta, a, b, first, best)
      {
        a, best := NegascoutStep(s0, t0, vals, first, depth, moves, i, alpha, beta, a, b, best);
        if a >= beta {
          break;
        }
        b := a + 1;
        first := false;
        i := i + 1;
      }
      if Exact(alpha, beta) && a < beta {
        assert vals[..i] == vals;
        MaxExit(-game.maxEvaluateValue, alpha, beta, vals);
      }
      score := a;
    }

    /**
     * The state of a negascout scan of `moves` from `s0` after `i` children: the
     * running best `a` and its move, and the upper bound `b` of the next window.
     */
    ghost predicate ScoutScanned(s0: S, t0: map<int, map<K, int>>, vals: seq<int>, moves: seq<M>, i: nat,
                                 alpha: int, beta: int, a: int, b: int, first: bool, best: Option<M>)
      reads this, cache
    {
      Kept(s0, t0) && i <= |vals| == |moves| && alpha <= a && (best.Some? ==> best.value in moves) &&
      ScoutWindow(first, a, beta, b) &&
      (Exact(alpha, beta) ==> a < beta && a == Best(true, alpha, vals[..i]) && best == MoveAt(moves, BestIndex(true, alpha, vals[..i])))
    }

    /**
     * Scores the `i`-th child of a negascout scan with the window `(a, b)` and
     * keeps it when it beats the running best `a`.
     */
    method NegascoutStep(ghost s0: S, ghost t0: map<int, map<K, int>>, ghost vals: seq<int>, first: bool, depth: nat,
                         moves: seq<M>, i: nat, alpha: int, beta: int, a: int, b: int, best: Option<M>)
      returns (a': int, best': Option<M>)
      requires Reversible(game) && depth >= 1 && moves == game.moves(s0) && i < |moves|
      requires vals == NegChildValues(game, s0, moves, depth - 1)
      requires ScoutScanned(s0, t0, vals, moves, i, alpha, beta, a, b, first, best)
      modifies this, cache
      ensures a' < beta ==> ScoutScanned(s0, t0, vals, moves, i + 1, alpha, beta, a', a' + 1, false, best')
      ensures beta <= a' ==> Kept(s0, t0) && alpha <= a' && (best'.Some? ==> best'.value in moves)
      ensures Exact(alpha, beta) && beta <= a' ==>
              Bracketed(a', Best(true, -game.maxEvaluateValue, vals), alpha, beta) && beta <= Best(true, -game.maxEvaluateValue, vals)
      decreases depth, 1, 0
    {
      ghost var before := cache.tables;
      MakeMove(moves[i]);
      var sc := NegascoutScore(first, depth, a, beta, b);
      UnmakeMove(moves[i]);
      ExtendsTransitive(t0, before, cache.tables);
      if Exact(alpha, beta) {
        MaxStep(alpha, beta, vals, i, a, sc);
        if beta <= sc {
          MaxCut(-game.maxEvaluateValue, alpha, beta, vals, i, sc);
        }
      }
      a', best' := a, best;
      if sc > a {
        a', best' := sc, Some(moves[i]);
      }
    }

    /**
     * The cached child score of negascout. A miss runs the probe of `Minimax`:
     * the window `(b, alpha)` negated, and a full re-search when a later child's
     * probe lands strictly inside `(alpha, beta)`.
     */
    method NegascoutScore(first: bool, depth: nat, alpha: int, beta: int, b: int) returns (score: int)
      requires Reversible(game) && depth >= 1
      modifies this, cache
      ensures state == old(state)
      ensures Extends(old(cache.tables), cache.tables)
      ensures !useTable ==> cache.tables == old(cache.tables)
      ensures Exact(alpha, beta) && ScoutWindow(first, alpha, beta, b) ==>
              Bracketed(score, -NegamaxValue(game, old(state), depth - 1), alpha, beta)
      ensures useTable ==> CachedByWho(old(cache.tables), cache.tables, old(state), 1, score)
      decreases depth, 0
    {
      if !useTable {
        score := ScoutProbe(first, depth, alpha, beta, b);
        return;
      }
      var g := GroupKey(grouping, state);
      var t := transposition(state);
      var present := g in cache.tables;
      if present && t in cache.tables[g] {
        score := cache.tables[g][t];
      } else {
        ghost var fetched := cache.tables;
        score := ScoutProbe(first, depth, alpha, beta, b);
        SaveTransposition(present, score);
        SaveExtends(fetched, fetched, old(cache.tables), present, g, symmetric(state), score);
      }
    }

    /** The uncached hook of `Minimax.negascoutScore`, which the cached hook calls as `super`. */
    method ScoutProbe(first: bool, depth: nat, alpha: int, beta: int, b: int) returns (score: int)
      requires Reversible(game) && depth >= 1
      modifies this, cache
      ensures state == old(state)
      ensures Extends(old(cache.tables), cache.tables)
      ensures !useTable ==> cache.tables == old(cache.tables)
      ensures Exact(alpha, beta) && ScoutWindow(first, alpha, beta, b) ==>
              Bracketed(score, -NegamaxValue(game, old(state), depth - 1), alpha, beta)
      decreases depth, 0, 0
    {
      ghost var v := -NegamaxValue(game, state, depth - 1);
      ghost var exact := Exact(alpha, beta) && ScoutWindow(first, alpha, beta, b);
      ghost var t0 := cache.tables;
      var r, _ := Negascout(depth - 1, -b, -alpha);
      score := -r;
      if exact {
        BracketedNegate(score, v, alpha, b);
      }
      if !first && alpha < score && score < beta {
        ghost var mid := cache.tables;
        var r2, _ := Negascout(depth - 1, -beta, -alpha);
        score := -r2;
        ExtendsTransitive(t0, mid, cache.tables);
        if exact {
          BracketedNegate(score, v, alpha, beta);
        }
      } else if !first && exact {
        NullWindowProbe(score, v, alpha, beta);
      }
    }

    /**
     * What a cached hook promises about the child position `s`, looked up in
     * group `GroupKey(s)` under key `transposition(s)`: on a hit (judged on the
     * tables before the hook) the score is `who` times the stored entry and
     * nothing is written; on a miss every symmetric key of `s` now holds `who`
     * times the score.
     */
    ghost predicate CachedByWho(before: map<int, map<K, int>>, after: map<int, map<K, int>>, s: S, who: int, score: int) {
      var g := GroupKey(grouping, s);
      match Stored(before, g, transposition(s))
      case Some(v) => score == who * v && after == before
      case None => forall k :: k in symmetric(s) ==> Stored(after, g, k) == Some(who * score)
    }

    /**
     * A position first searched on a miss (storing `who * first`) and met again
     * by the same side before the tables change reads back the searched score
     * itself, `who * who * first`, for either side `who` of the minimax rules.
     */
    lemma Revisit(t0: map<int, map<K, int>>, t1: map<int, map<K, int>>, s: S, who: int, first: int, again: int)
      requires who == 1 || who == -1
      requires transposition(s) in symmetric(s)
      requires Stored(t0, GroupKey(grouping, s), transposition(s)).None?
      requires CachedByWho(t0, t1, s, who, first)
      requires CachedByWho(t1, t1, s, who, again)
      ensures again == first
    {
      assert Stored(t1, GroupKey(grouping, s), transposition(s)) == Some(who * first);
    }
  }
}
