/**
 * The decision rules of the abstract `Minimax` class (and of its later copy
 * `BasicMinimax`, whose rules are the same code): plain minimax, minimax with
 * alpha-beta pruning, negamax with alpha-beta pruning and negascout (principal
 * variation search). The game state lives in the object and is changed in place
 * by `makeMove`/`unmakeMove` and `next`/`previous`; every search leaves it as it
 * found it. The one-slot move wrapper of the source is the `best` out-parameter.
 */
module Search {
  import opened Wrappers
  import opened Games
  import opened Selection
  import opened Values

  datatype Algorithm = MINIMAX | ALPHA_BETA | NEGAMAX | NEGASCOUT

  /**
   * The upper bound `b` negascout searches the next child with: the full window's
   * `beta` for the first child, the null window `alpha + 1` for the others.
   */
  predicate ScoutWindow(first: bool, alpha: int, beta: int, b: int) {
    b == if first then beta else alpha + 1
  }

  class Minimax<S(!new), M(!new)> {
    const algo: Algorithm
    const game: Game<S, M>
    var state: S

    constructor (algo: Algorithm, game: Game<S, M>, start: S)
      ensures this.algo == algo && this.game == game && state == start
    {
      this.algo := algo;
      this.game := game;
      state := start;
    }

    /** The no-argument constructor of the source, which selects negamax. */
    constructor WithDefaultAlgorithm(game: Game<S, M>, start: S)
      ensures algo == NEGAMAX && this.game == game && state == start
    {
      algo := NEGAMAX;
      this.game := game;
      state := start;
    }

    method MakeMove(m: M)
      modifies this
      ensures state == game.play(old(state), m)
    {
      state := game.play(state, m);
    }

    method UnmakeMove(m: M)
      modifies this
      ensures state == game.undo(old(state), m)
    {
      state := game.undo(state, m);
    }

    method Next()
      modifies this
      ensures state == game.next(old(state))
    {
      state := game.next(state);
    }

    method Previous()
      modifies this
      ensures state == game.previous(old(state))
    {
      state := game.previous(state);
    }

    /**
     * The best move for the player to move, searched `depth` plies deep with the
     * configured rule. Whatever the rule, the move is the one plain minimax picks:
     * the first move reaching the best value, none when the root is a leaf or passes.
     */
    method GetBestMove(depth: int) returns (r: Result<Option<M>>)
      requires Lawful(game)
      modifies this
      ensures state == old(state)
      ensures r.Failure? <==> depth <= 0
      ensures depth > 0 ==> r == Success(MinimaxChoice(game, old(state), depth))
    {
      if depth <= 0 {
        return Failure("Search depth MUST be > 0");
      }
      match algo {
        case MINIMAX => r := MinimaxBestMove(depth);
        case ALPHA_BETA => r := AlphaBetaBestMove(depth);
        case NEGAMAX => r := NegamaxBestMove(depth);
        case NEGASCOUT => r := NegascoutBestMove(depth);
      }
    }

    /** The Java entry point's depth check in front of the search of the root. */
    method MinimaxBestMove(depth: int) returns (r: Result<Option<M>>)
      requires Lawful(game)
      modifies this
      ensures state == old(state)
      ensures r.Failure? <==> depth <= 0
      ensures depth > 0 ==> r == Success(MinimaxChoice(game, old(state), depth))
    {
      if depth <= 0 {
        return Failure("Search depth MUST be > 0");
      }
      var best := MinimaxRoot(depth);
      return Success(best);
    }

    method AlphaBetaBestMove(depth: int) returns (r: Result<Option<M>>)
      requires Lawful(game)
      modifies this
      ensures state == old(state)
      ensures r.Failure? <==> depth <= 0
      ensures depth > 0 ==> r == Success(MinimaxChoice(game, old(state), depth))
    {
      if depth <= 0 {
        return Failure("Search depth MUST be > 0");
      }
      var best := AlphaBetaRoot(depth);
      return Success(best);
    }

    method NegamaxBestMove(depth: int) returns (r: Result<Option<M>>)
      requires Lawful(game)
      modifies this
      ensures state == old(state)
      ensures r.Failure? <==> depth <= 0
      ensures depth > 0 ==> r == Success(MinimaxChoice(game, old(state), depth))
    {
      if depth <= 0 {
        return Failure("Search depth MUST be > 0");
      }
      var best := NegamaxRoot(depth);
      return Success(best);
    }

    method NegascoutBestMove(depth: int) returns (r: Result<Option<M>>)
      requires Lawful(game)
      modifies this
      ensures state == old(state)
      ensures r.Failure? <==> depth <= 0
      ensures depth > 0 ==> r == Success(MinimaxChoice(game, old(state), depth))
    {
      if depth <= 0 {
        return Failure("Search depth MUST be > 0");
      }
      var best := NegascoutRoot(depth);
      return Success(best);
    }

    /** The root call of plain minimax, for the maximizing player. */
    method MinimaxRoot(depth: nat) returns (best: Option<M>)
      requires Reversible(game)
      modifies this
      ensures state == old(state)
      ensures best == MinimaxChoice(game, old(state), depth)
    {
      var _, b := Minimax(depth, 1);
      best := b;
    }

    /**
     * The root call of alpha-beta with the window `(-maxEvaluateValue, maxEvaluateValue)`:
     * the root value lies inside it, so the cut-offs never change the chosen move.
     */
    method AlphaBetaRoot(depth: nat) returns (best: Option<M>)
      requires Lawful(game)
      modifies this
      ensures state == old(state)
      ensures best == MinimaxChoice(game, old(state), depth)
    {
      ghost var s0 := state;
      assert -game.maxEvaluateValue < game.evaluate(s0) < game.maxEvaluateValue;
      var _, b := AlphaBeta(depth, 1, -game.maxEvaluateValue, game.maxEvaluateValue);
      AlphaBetaRootMove(game, s0, depth, b);
      best := b;
    }

    /** The root call of negamax: the same move as minimax, since negamax values are minimax values seen by the mover. */
    method NegamaxRoot(depth: nat) returns (best: Option<M>)
      requires Lawful(game)
      modifies this
      ensures state == old(state)
      ensures best == MinimaxChoice(game, old(state), depth)
    {
      ghost var s0 := state;
      assert -game.maxEvaluateValue < game.evaluate(s0) < game.maxEvaluateValue;
      var _, b := Negamax(depth, -game.maxEvaluateValue, game.maxEvaluateValue);
      NegamaxRootMove(game, s0, depth, b);
      best := b;
    }

    /** The root call of negascout, which picks the move negamax picks. */
    method NegascoutRoot(depth: nat) returns (best: Option<M>)
      requires Lawful(game)
      modifies this
      ensures state == old(state)
      ensures best == MinimaxChoice(game, old(state), depth)
    {
      ghost var s0 := state;
      assert -game.maxEvaluateValue < game.evaluate(s0) < game.maxEvaluateValue;
      var _, b := Negascout(depth, -game.maxEvaluateValue, game.maxEvaluateValue);
      NegamaxRootMove(game, s0, depth, b);
      best := b;
    }

    method Minimax(depth: nat, who: int) returns (score: int, best: Option<M>)
      requires Reversible(game)
      modifies this
      ensures state == old(state)
      ensures score == MinimaxValue(game, old(state), depth, who)
      ensures best == Choice(game, old(state), depth, who, Seed(game, who))
      ensures best.Some? ==> best.value in game.moves(old(state))
      decreases depth, 2
    {
      if depth == 0 || game.isOver(state) {
        return who * game.evaluate(state), None;
      }
      var moves := game.moves(state);
      if |moves| == 0 {
        Next();
        score := MinimaxScore(depth, who);
        Previous();
        return score, None;
      }
      score, best := MinimaxMoves(depth, moves, who);
    }

    /** The scan of the moves of a node that is neither a leaf nor a pass. */
    method MinimaxMoves(depth: nat, moves: seq<M>, who: int) returns (score: int, best: Option<M>)
      requires Reversible(game) && depth >= 1 && !game.isOver(state)
      requires moves == game.moves(state) && |moves| > 0
      modifies this
      ensures state == old(state)
      ensures score == MinimaxValue(game, old(state), depth, who)
      ensures best == Choice(game, old(state), depth, who, Seed(game, who))
      decreases depth, 1
    {
      ghost var s0 := state;
      ghost var vals := ChildValues(game, s0, moves, depth - 1, who);
      var maximizing := who > 0;
      var bestScore := if maximizing then -game.maxEvaluateValue else game.maxEvaluateValue;
      best := None;
      var i := 0;
      while i < |moves|
        invariant 0 <= i <= |moves| && state == s0
        invariant bestScore == Best(maximizing, Seed(game, who), vals[..i])
        invariant best == MoveAt(moves, BestIndex(maximizing, Seed(game, who), vals[..i]))
      {
        MakeMove(moves[i]);
        var sc := MinimaxScore(depth, who);
        UnmakeMove(moves[i]);
        assert vals[..i + 1][..i] == vals[..i];
        if (maximizing && sc > bestScore) || (!maximizing && sc < bestScore) {
          bestScore := sc;
          best := Some(moves[i]);
        }
        i := i + 1;
      }
      assert vals[..i] == vals;
      score := bestScore;
    }

    /** The score of the child just played: the opponent's minimax one ply shallower. */
    method MinimaxScore(depth: nat, who: int) returns (score: int)
      requires Reversible(game) && depth >= 1
      modifies this
      ensures state == old(state)
      ensures score == MinimaxValue(game, old(state), depth - 1, -who)
      decreases depth, 0
    {
      var r, _ := Minimax(depth - 1, -who);
      score := r;
    }

    method AlphaBeta(depth: nat, who: int, alpha: int, beta: int) returns (score: int, best: Option<M>)
      requires Reversible(game)
      requires -game.maxEvaluateValue <= alpha < beta <= game.maxEvaluateValue
      modifies this
      ensures state == old(state)
      ensures Bracketed(score, MinimaxValue(game, old(state), depth, who), alpha, beta)
      ensures (if who > 0 then MinimaxValue(game, old(state), depth, who) < beta
               else alpha < MinimaxValue(game, old(state), depth, who)) ==>
              best == Choice(game, old(state), depth, who, if who > 0 then alpha else beta)
      ensures depth > 0 && !game.isOver(old(state)) && |game.moves(old(state))| > 0 ==> if who > 0 then alpha <= score else score <= beta
      ensures best.Some? ==> best.value in game.moves(old(state))
      decreases depth, 2
    {
      if depth == 0 || game.isOver(state) {
        return who * game.evaluate(state), None;
      }
      var moves := game.moves(state);
      if |moves| == 0 {
        Next();
        score := AlphaBetaScore(depth, who, alpha, beta);
        Previous();
        return score, None;
      }
      score, best := AlphaBetaMoves(depth, moves, who, alpha, beta);
    }

    /** The scan of the moves of a node that is neither a leaf nor a pass. */
    method AlphaBetaMoves(depth: nat, moves: seq<M>, who: int, alpha: int, beta: int) returns (score: int, best: Option<M>)
      requires Reversible(game) && depth >= 1 && !game.isOver(state)
      requires moves == game.moves(state) && |moves| > 0
      requires -game.maxEvaluateValue <= alpha < beta <= game.maxEvaluateValue
      modifies this
      ensures state == old(state)
      ensures Bracketed(score, MinimaxValue(game, old(state), depth, who), alpha, beta)
      ensures (if who > 0 then MinimaxValue(game, old(state), depth, who) < beta
               else alpha < MinimaxValue(game, old(state), depth, who)) ==>
              best == Choice(game, old(state), depth, who, if who > 0 then alpha else beta)
      ensures if who > 0 then alpha <= score else score <= beta
      ensures best.Some? ==> best.value in moves
      decreases depth, 1
    {
      ghost var s0 := state;
      ghost var vals := ChildValues(game, s0, moves, depth - 1, who);
      best := None;
      var i := 0;
      if who > 0 {
        var a := alpha;
        while i < |moves|
          invariant 0 <= i <= |moves| && state == s0
          invariant alpha <= a < beta && a == Best(true, alpha, vals[..i])
          invariant best == MoveAt(moves, BestIndex(true, alpha, vals[..i]))
        {
          MakeMove(moves[i]);
          var sc := AlphaBetaScore(depth, who, a, beta);
          UnmakeMove(moves[i]);
          MaxStep(alpha, beta, vals, i, a, sc);
          if sc > a {
            a := sc;
            best := Some(moves[i]);
            if a >= beta {
              MaxCut(Seed(game, who), alpha, beta, vals, i, sc);
              break;
            }
          }
          i := i + 1;
        }
        if a < beta {
          assert vals[..i] == vals;
          MaxExit(Seed(game, who), alpha, beta, vals);
        }
        score := a;
      } else {
        var b := beta;
        while i < |moves|
          invariant 0 <= i <= |moves| && state == s0
          invariant alpha < b <= beta && b == Best(false, beta, vals[..i])
          invariant best == MoveAt(moves, BestIndex(false, beta, vals[..i]))
        {
          MakeMove(moves[i]);
          var sc := AlphaBetaScore(depth, who, alpha, b);
          UnmakeMove(moves[i]);
          MinStep(alpha, beta, vals, i, b, sc);
          if sc < b {
            b := sc;
            best := Some(moves[i]);
            if alpha >= b {
              MinCut(Seed(game, who), alpha, beta, vals, i, sc);
              break;
            }
          }
          i := i + 1;
        }
        if alpha < b {
          assert vals[..i] == vals;
          MinExit(Seed(game, who), alpha, beta, vals);
        }
        score := b;
      }
    }

    method AlphaBetaScore(depth: nat, who: int, alpha: int, beta: int) returns (score: int)
      requires Reversible(game) && depth >= 1
      requires -game.maxEvaluateValue <= alpha < beta <= game.maxEvaluateValue
      modifies this
      ensures state == old(state)
      ensures Bracketed(score, MinimaxValue(game, old(state), depth - 1, -who), alpha, beta)
      decreases depth, 0
    {
      var r, _ := AlphaBeta(depth - 1, -who, alpha, beta);
      score := r;
    }

    method Negamax(depth: nat, alpha: int, beta: int) returns (score: int, best: Option<M>)
      requires Reversible(game)
      requires -game.maxEvaluateValue <= alpha < beta <= game.maxEvaluateValue
      modifies this
      ensures state == old(state)
      ensures Bracketed(score, NegamaxValue(game, old(state), depth), alpha, beta)
      ensures NegamaxValue(game, old(state), depth) < beta ==> best == NegamaxChoice(game, old(state), depth, alpha)
      ensures depth > 0 && !game.isOver(old(state)) && |game.moves(old(state))| > 0 ==> alpha <= score
      ensures best.Some? ==> best.value in game.moves(old(state))
      decreases depth, 2
    {
      if depth == 0 || game.isOver(state) {
        return game.evaluate(state), None;
      }
      var moves := game.moves(state);
      if |moves| == 0 {
        Next();
        score := NegamaxScore(depth, alpha, beta);
        Previous();
        return score, None;
      }
      score, best := NegamaxMoves(depth, moves, alpha, beta);
    }

    /** The scan of the moves of a node that is neither a leaf nor a pass. */
    method NegamaxMoves(depth: nat, moves: seq<M>, alpha: int, beta: int) returns (score: int, best: Option<M>)
      requires Reversible(game) && depth >= 1 && !game.isOver(state)
      requires moves == game.moves(state) && |moves| > 0
      requires -game.maxEvaluateValue <= alpha < beta <= game.maxEvaluateValue
      modifies this
      ensures state == old(state)
      ensures Bracketed(score, NegamaxValue(game, old(state), depth), alpha, beta)
      ensures NegamaxValue(game, old(state), depth) < beta ==> best == NegamaxChoice(game, old(state), depth, alpha)
      ensures alpha <= score
      ensures best.Some? ==> best.value in moves
      decreases depth, 1
    {
      ghost var s0 := state;
      ghost var vals := NegChildValues(game, s0, moves, depth - 1);
      best := None;
      var a := alpha;
      var i := 0;
      while i < |moves|
        invariant 0 <= i <= |moves| && state == s0
        invariant alpha <= a < beta && a == Best(true, alpha, vals[..i])
        invariant best == MoveAt(moves, BestIndex(true, alpha, vals[..i]))
      {
        MakeMove(moves[i]);
        var sc := NegamaxScore(depth, a, beta);
        UnmakeMove(moves[i]);
        MaxStep(alpha, beta, vals, i, a, sc);
        if sc > a {
          a := sc;
          best := Some(moves[i]);
          if a >= beta {
            MaxCut(-game.maxEvaluateValue, alpha, beta, vals, i, sc);
            break;
          }
        }
        i := i + 1;
      }
      if a < beta {
        assert vals[..i] == vals;
        MaxExit(-game.maxEvaluateValue, alpha, beta, vals);
      }
      score := a;
    }

    /** The score of the child just played, for the player who played it. */
    method NegamaxScore(depth: nat, alpha: int, beta: int) returns (score: int)
      requires Reversible(game) && depth >= 1
      requires -game.maxEvaluateValue <= alpha < beta <= game.maxEvaluateValue
      modifies this
      ensures state == old(state)
      ensures Bracketed(score, -NegamaxValue(game, old(state), depth - 1), alpha, beta)
      decreases depth, 0
    {
      var r, _ := Negamax(depth - 1, -beta, -alpha);
      score := -r;
    }

    method Negascout(depth: nat, alpha: int, beta: int) returns (score: int, best: Option<M>)
      requires Reversible(game)
      requires -game.maxEvaluateValue <= alpha < beta <= game.maxEvaluateValue
      modifies this
      ensures state == old(state)
      ensures Bracketed(score, NegamaxValue(game, old(state), depth), alpha, beta)
      ensures NegamaxValue(game, old(state), depth) < beta ==> best == NegamaxChoice(game, old(state), depth, alpha)
      ensures depth > 0 && !game.isOver(old(state)) && |game.moves(old(state))| > 0 ==> alpha <= score
      ensures best.Some? ==> best.value in game.moves(old(state))
      decreases depth, 2
    {
      if depth == 0 || game.isOver(state) {
        return game.evaluate(state), None;
      }
      var moves := game.moves(state);
      var b := beta;
      if |moves| == 0 {
        Next();
        score := NegascoutScore(true, depth, alpha, beta, b);
        Previous();
        return score, None;
      }
      score, best := NegascoutMoves(depth, moves, alpha, beta);
    }

    /** The scan of the moves of a node that is neither a leaf nor a pass. */
    method NegascoutMoves(depth: nat, moves: seq<M>, alpha: int, beta: int) returns (score: int, best: Option<M>)
      requires Reversible(game) && depth >= 1 && !game.isOver(state)
      requires moves == game.moves(state) && |moves| > 0
      requires -game.maxEvaluateValue <= alpha < beta <= game.maxEvaluateValue
      modifies this
      ensures state == old(state)
      ensures Bracketed(score, NegamaxValue(game, old(state), depth), alpha, beta)
      ensures NegamaxValue(game, old(state), depth) < beta ==> best == NegamaxChoice(game, old(state), depth, alpha)
      ensures alpha <= score
      ensures best.Some? ==> best.value in moves
      decreases depth, 1
    {
      var b := beta;
      ghost var s0 := state;
      ghost var vals := NegChildValues(game, s0, moves, depth - 1);
      best := None;
      var a := alpha;
      var first := true;
      var i := 0;
      while i < |moves|
        invariant 0 <= i <= |moves| && state == s0
        invariant alpha <= a < beta && a == Best(true, alpha, vals[..i])
        invariant best == MoveAt(moves, BestIndex(true, alpha, vals[..i]))
        invariant ScoutWindow(first, a, beta, b)
      {
        MakeMove(moves[i]);
        var sc := NegascoutScore(first, depth, a, beta, b);
        UnmakeMove(moves[i]);
        MaxStep(alpha, beta, vals, i, a, sc);
        if sc > a {
          a := sc;
          best := Some(moves[i]);
          if a >= beta {
            MaxCut(-game.maxEvaluateValue, alpha, beta, vals, i, sc);
            break;
          }
        }
        b := a + 1;
        first := false;
        i := i + 1;
      }
      if a < beta {
        assert vals[..i] == vals;
        MaxExit(-game.maxEvaluateValue, alpha, beta, vals);
      }
      score := a;
    }

    /**
     * The score of the child just played. The first child is searched with the
     * full window; the others with the null window `(alpha, alpha + 1)` first,
     * and again with the full window when that probe lands strictly inside it.
     */
    method NegascoutScore(first: bool, depth: nat, alpha: int, beta: int, b: int) returns (score: int)
      requires Reversible(game) && depth >= 1
      requires -game.maxEvaluateValue <= alpha < beta <= game.maxEvaluateValue
      requires ScoutWindow(first, alpha, beta, b)
      modifies this
      ensures state == old(state)
      ensures Bracketed(score, -NegamaxValue(game, old(state), depth - 1), alpha, beta)
      decreases depth, 0
    {
      var r, _ := Negascout(depth - 1, -b, -alpha);
      score := -r;
      BracketedNegate(score, -NegamaxValue(game, old(state), depth - 1), alpha, b);
      if !first && alpha < score && score < beta {
        var r2, _ := Negascout(depth - 1, -beta, -alpha);
        r := r2;
        score := -r;
      } else if !first {
        NullWindowProbe(score, -NegamaxValue(game, old(state), depth - 1), alpha, beta);
      }
    }
  }
}
