/**
 * The `IA` class of the `fr.pixelprose` package, the library's earliest search
 * engine. Its minimax and alpha-beta rules count the depth up from 0 to the
 * difficulty's depth and maximize on the plies whose distance to that depth is
 * even; a game over before the depth is reached is scored for the side to move
 * at that distance. Its negamax and negascout rules count the depth down as the
 * later engines do. No rule calls `next` or `previous`: a node without moves is
 * searched again one ply further, so the reference values are those of the game
 * whose `next` and `previous` are the identity.
 */
module Pixelprose {
  import opened Wrappers
  import opened Games
  import opened Selection
  import opened Values
  import opened Search

  /** Whether `height` is even, one ply at a time. */
  predicate EvenHeight(height: nat)
    decreases height
  {
    height == 0 || !EvenHeight(height - 1)
  }

  lemma {:induction false} EvenHeightMod(height: nat)
    ensures EvenHeight(height) <==> height % 2 == 0
    decreases height
  {
    if height > 0 {
      EvenHeightMod(height - 1);
    }
  }

  /** The side a node `height` plies above the depth limit searches for: +1 on even distances. */
  function Who(height: nat): (w: int)
    ensures w == 1 || w == -1
  {
    if EvenHeight(height) then 1 else -1
  }

  /** One ply further down, the other side searches. */
  lemma WhoFlips(height: nat)
    requires height >= 1
    ensures Who(height - 1) == -Who(height)
  {
  }

  /** The side that maximizes at `depth` of `maxDepth`: the plies an even distance above the depth limit. */
  predicate Maximizing(depth: nat, maxDepth: nat)
    requires depth <= maxDepth
  {
    EvenHeight(maxDepth - depth)
  }

  /**
   * The parity tests of the source: the ply maximizes when `depth` and
   * `maxDepth` have the same parity, and a game over is negated when the
   * distance to the depth limit is odd.
   */
  lemma ParityTest(depth: nat, maxDepth: nat)
    requires depth <= maxDepth
    ensures (depth % 2 == maxDepth % 2) <==> Maximizing(depth, maxDepth)
    ensures (if (maxDepth - depth) % 2 == 1 then -1 else 1) == Who(maxDepth - depth)
  {
    EvenHeightMod(maxDepth - depth);
  }

  /**
   * Whatever the parity of the depth, the root move the parity rule picks is the
   * move the negamax rule picks.
   */
  lemma ParityChoice<S(!new), M>(g: Game<S, M>, s: S, depth: nat)
    ensures Choice(g, s, depth, Who(depth), Seed(g, Who(depth))) == NegamaxChoice(g, s, depth, -g.maxEvaluateValue)
  {
    if Who(depth) == 1 {
      ChoiceAgrees(g, s, depth);
    } else {
      MinChoiceAgrees(g, s, depth);
    }
  }

  /** The initial best score of a scan at `depth` of `maxDepth`. */
  function UpSeed<S(!new), M>(g: Game<S, M>, depth: nat, maxDepth: nat): int
    requires depth <= maxDepth
  {
    if Maximizing(depth, maxDepth) then -g.maxEvaluateValue else g.maxEvaluateValue
  }

  /**
   * The value the depth-up minimax rule gives a position at `depth` of
   * `maxDepth`: the evaluation at the depth limit, the evaluation signed for the
   * side the parity of the plies left gives at a game over, the same position one ply further
   * for a pass, and otherwise the best child value for the side the parity gives.
   */
  function UpValue<S(!new), M>(g: Game<S, M>, s: S, depth: nat, maxDepth: nat): (v: int)
    requires depth <= maxDepth
    ensures EvalBounded(g) ==> -g.maxEvaluateValue < v < g.maxEvaluateValue
    decreases maxDepth - depth, 1
  {
    if depth == maxDepth then g.evaluate(s)
    else if g.isOver(s) then Who(maxDepth - depth) * g.evaluate(s)
    else if |g.moves(s)| == 0 then UpValue(g, s, depth + 1, maxDepth)
    else
      var vs := UpChildValues(g, s, g.moves(s), depth + 1, maxDepth);
      assert forall i :: 0 <= i < |vs| ==> vs[i] == UpValue(g, g.play(s, g.moves(s)[i]), depth + 1, maxDepth);
      Best(Maximizing(depth, maxDepth), UpSeed(g, depth, maxDepth), vs)
  }

  /** The values of the children `ms` of `s`, which lie at `depth`. */
  function UpChildValues<S(!new), M>(g: Game<S, M>, s: S, ms: seq<M>, depth: nat, maxDepth: nat): seq<int>
    requires depth <= maxDepth
    decreases maxDepth - depth, 2
  {
    seq(|ms|, i requires 0 <= i < |ms| => UpValue(g, g.play(s, ms[i]), depth, maxDepth))
  }

  /** The move the depth-up rule picks at `depth` of `maxDepth` from the initial best score `seed`. */
  function UpChoice<S(!new), M>(g: Game<S, M>, s: S, depth: nat, maxDepth: nat, seed: int): Option<M>
    requires depth <= maxDepth
  {
    if depth == maxDepth || g.isOver(s) || |g.moves(s)| == 0 then None
    else MoveAt(g.moves(s), BestIndex(Maximizing(depth, maxDepth), seed, UpChildValues(g, s, g.moves(s), depth + 1, maxDepth)))
  }

  /** What the scan of a maximizing node's children tells about the node itself. */
  lemma UpMaxNode<S(!new), M>(g: Game<S, M>, s: S, depth: nat, maxDepth: nat, alpha: int, beta: int, score: int, best: Option<M>)
    requires depth < maxDepth && Maximizing(depth, maxDepth) && !g.isOver(s) && |g.moves(s)| > 0
    requires Bracketed(score, Best(true, -g.maxEvaluateValue, UpChildValues(g, s, g.moves(s), depth + 1, maxDepth)), alpha, beta)
    requires Best(true, -g.maxEvaluateValue, UpChildValues(g, s, g.moves(s), depth + 1, maxDepth)) < beta ==>
             best == MoveAt(g.moves(s), BestIndex(true, alpha, UpChildValues(g, s, g.moves(s), depth + 1, maxDepth)))
    ensures Bracketed(score, UpValue(g, s, depth, maxDepth), alpha, beta)
    ensures UpValue(g, s, depth, maxDepth) < beta ==> best == UpChoice(g, s, depth, maxDepth, alpha)
  {
  }

  /** What the scan of a minimizing node's children tells about the node itself. */
  lemma UpMinNode<S(!new), M>(g: Game<S, M>, s: S, depth: nat, maxDepth: nat, alpha: int, beta: int, score: int, best: Option<M>)
    requires depth < maxDepth && !Maximizing(depth, maxDepth) && !g.isOver(s) && |g.moves(s)| > 0
    requires Bracketed(score, Best(false, g.maxEvaluateValue, UpChildValues(g, s, g.moves(s), depth + 1, maxDepth)), alpha, beta)
    requires alpha < Best(false, g.maxEvaluateValue, UpChildValues(g, s, g.moves(s), depth + 1, maxDepth)) ==>
             best == MoveAt(g.moves(s), BestIndex(false, beta, UpChildValues(g, s, g.moves(s), depth + 1, maxDepth)))
    ensures Bracketed(score, UpValue(g, s, depth, maxDepth), alpha, beta)
    ensures alpha < UpValue(g, s, depth, maxDepth) ==> best == UpChoice(g, s, depth, maxDepth, beta)
  {
  }

  /**
   * Counting the depth up is minimax counting the plies left down: the value at
   * `depth` of `maxDepth` is the minimax value, over the game that passes in
   * place, of the `maxDepth - depth` plies left for the side their parity gives.
   */
  lemma {:induction false} UpIsMinimax<S(!new), M>(g: Game<S, M>, s: S, depth: nat, maxDepth: nat)
    requires depth <= maxDepth
    ensures UpValue(g, s, depth, maxDepth) == MinimaxValue(Silent(g), s, maxDepth - depth, Who(maxDepth - depth))
    decreases maxDepth - depth, 1
  {
    if depth == maxDepth || g.isOver(s) {
    } else if |g.moves(s)| == 0 {
      WhoFlips(maxDepth - depth);
      UpIsMinimax(g, s, depth + 1, maxDepth);
    } else {
      UpChildren(g, s, g.moves(s), depth + 1, maxDepth);
    }
  }

  /** The children's values agree too, for the side that moves at their parent. */
  lemma UpChildren<S(!new), M>(g: Game<S, M>, s: S, ms: seq<M>, depth: nat, maxDepth: nat)
    requires 1 <= depth <= maxDepth
    ensures UpChildValues(g, s, ms, depth, maxDepth) == ChildValues(Silent(g), s, ms, maxDepth - depth, Who(maxDepth - depth + 1))
    decreases maxDepth - depth, 2
  {
    WhoFlips(maxDepth - depth + 1);
    forall i | 0 <= i < |ms|
      ensures UpChildValues(g, s, ms, depth, maxDepth)[i] == ChildValues(Silent(g), s, ms, maxDepth - depth, Who(maxDepth - depth + 1))[i]
    {
      UpIsMinimax(g, g.play(s, ms[i]), depth, maxDepth);
    }
  }

  /** The move picked at `depth` of `maxDepth` is the minimax rule's, for any initial best score. */
  lemma UpChoiceIsChoice<S(!new), M>(g: Game<S, M>, s: S, depth: nat, maxDepth: nat, seed: int)
    requires depth <= maxDepth
    ensures UpChoice(g, s, depth, maxDepth, seed) == Choice(Silent(g), s, maxDepth - depth, Who(maxDepth - depth), seed)
  {
    if depth == maxDepth || g.isOver(s) || |g.moves(s)| == 0 {
      assert UpChoice(g, s, depth, maxDepth, seed) == None;
    } else {
      UpChoiceNode(g, s, depth, maxDepth, seed, Silent(g));
    }
  }

  /** The same at a node that is neither a leaf nor a pass, where both scan the children. */
  lemma UpChoiceNode<S(!new), M>(g: Game<S, M>, s: S, depth: nat, maxDepth: nat, seed: int, h: Game<S, M>)
    requires depth < maxDepth && !g.isOver(s) && |g.moves(s)| > 0 && h == Silent(g)
    ensures UpChoice(g, s, depth, maxDepth, seed) == Choice(h, s, maxDepth - depth, Who(maxDepth - depth), seed)
  {
    var ms, k := g.moves(s), maxDepth - depth;
    var cv := ChildValues(h, s, ms, k - 1, Who(k));
    UpChildren(g, s, ms, depth + 1, maxDepth);
    assert UpChildValues(g, s, ms, depth + 1, maxDepth) == cv;
    assert Choice(h, s, k, Who(k), seed) == MoveAt(ms, BestIndex(Who(k) > 0, seed, cv));
  }

  /** At the root the depth-up rule's move is the minimax rule's for the side the parity of the depth gives the root. */
  lemma UpRootIsChoice<S(!new), M>(g: Game<S, M>, s: S, maxDepth: nat)
    ensures UpChoice(g, s, 0, maxDepth, UpSeed(g, 0, maxDepth)) == Choice(Silent(g), s, maxDepth, Who(maxDepth), Seed(Silent(g), Who(maxDepth)))
  {
    assert UpSeed(g, 0, maxDepth) == Seed(Silent(g), Who(maxDepth));
    UpChoiceIsChoice(g, s, 0, maxDepth, UpSeed(g, 0, maxDepth));
  }

  /**
   * At the root, whatever the parity of the depth, the depth-up rule picks the
   * move the negamax rule of the same engine picks.
   */
  lemma UpRootChoice<S(!new), M>(g: Game<S, M>, s: S, maxDepth: nat, b: Option<M>)
    requires b == UpChoice(g, s, 0, maxDepth, UpSeed(g, 0, maxDepth))
    ensures b == PassChoice(g, s, maxDepth, -g.maxEvaluateValue)
  {
    var h := Silent(g);
    var lo := -g.maxEvaluateValue;
    assert -h.maxEvaluateValue == lo;
    UpRootIsChoice(g, s, maxDepth);
    ParityChoice(h, s, maxDepth);
    PassChoiceIsNegamax(g, s, maxDepth, lo);
  }

  /**
   * A root searched with the full window and a value strictly inside it gets the
   * move of the initial best score of its side, whichever side that is.
   */
  lemma UpRootWindow<S(!new), M>(g: Game<S, M>, s: S, maxDepth: nat, b: Option<M>)
    requires -g.maxEvaluateValue < UpValue(g, s, 0, maxDepth) < g.maxEvaluateValue
    requires Maximizing(0, maxDepth) && UpValue(g, s, 0, maxDepth) < g.maxEvaluateValue ==>
             b == UpChoice(g, s, 0, maxDepth, -g.maxEvaluateValue)
    requires !Maximizing(0, maxDepth) && -g.maxEvaluateValue < UpValue(g, s, 0, maxDepth) ==>
             b == UpChoice(g, s, 0, maxDepth, g.maxEvaluateValue)
    ensures b == UpChoice(g, s, 0, maxDepth, UpSeed(g, 0, maxDepth))
  {
  }

  lemma SilentBounded<S(!new), M>(g: Game<S, M>)
    requires EvalBounded(g)
    ensures EvalBounded(Silent(g))
  {
  }

  /**
   * The value the negamax rule gives a position `depth` plies above the limit,
   * for the player to move there, when a pass searches the same position again
   * one ply shallower for the other side.
   */
  function PassValue<S(!new), M>(g: Game<S, M>, s: S, depth: nat): (v: int)
    ensures EvalBounded(g) ==> -g.maxEvaluateValue < v < g.maxEvaluateValue
    decreases depth, 1
  {
    if depth == 0 || g.isOver(s) then g.evaluate(s)
    else if |g.moves(s)| == 0 then -PassValue(g, s, depth - 1)
    else
      var vs := PassChildValues(g, s, g.moves(s), depth - 1);
      assert forall i :: 0 <= i < |vs| ==> vs[i] == -PassValue(g, g.play(s, g.moves(s)[i]), depth - 1);
      Best(true, -g.maxEvaluateValue, vs)
  }

  /** The negated values of the children `ms` of `s`: their scores for the player at `s`. */
  function PassChildValues<S(!new), M>(g: Game<S, M>, s: S, ms: seq<M>, d: nat): seq<int>
    decreases d, 2
  {
    seq(|ms|, i requires 0 <= i < |ms| => -PassValue(g, g.play(s, ms[i]), d))
  }

  /** The move the negamax rule picks from the initial best score `seed`. */
  function PassChoice<S(!new), M>(g: Game<S, M>, s: S, depth: nat, seed: int): Option<M> {
    if depth == 0 || g.isOver(s) || |g.moves(s)| == 0 then None
    else MoveAt(g.moves(s), BestIndex(true, seed, PassChildValues(g, s, g.moves(s), depth - 1)))
  }

  /** What the scan of the children of a node that is neither a leaf nor a pass tells about the node itself. */
  lemma PassNode<S(!new), M>(g: Game<S, M>, s: S, depth: nat, alpha: int, beta: int, score: int, best: Option<M>)
    requires depth >= 1 && !g.isOver(s) && |g.moves(s)| > 0
    requires Bracketed(score, Best(true, -g.maxEvaluateValue, PassChildValues(g, s, g.moves(s), depth - 1)), alpha, beta)
    requires Best(true, -g.maxEvaluateValue, PassChildValues(g, s, g.moves(s), depth - 1)) < beta ==>
             best == MoveAt(g.moves(s), BestIndex(true, alpha, PassChildValues(g, s, g.moves(s), depth - 1)))
    ensures Bracketed(score, PassValue(g, s, depth), alpha, beta)
    ensures PassValue(g, s, depth) < beta ==> best == PassChoice(g, s, depth, alpha)
  {
  }

  /** Passing in place is negamax over the game whose `next` is the identity. */
  lemma {:induction false} PassIsNegamax<S(!new), M>(g: Game<S, M>, s: S, depth: nat)
    ensures PassValue(g, s, depth) == NegamaxValue(Silent(g), s, depth)
    decreases depth, 1
  {
    if depth == 0 || g.isOver(s) {
    } else if |g.moves(s)| == 0 {
      PassIsNegamax(g, s, depth - 1);
    } else {
      PassChildren(g, s, g.moves(s), depth - 1);
    }
  }

  lemma PassChildren<S(!new), M>(g: Game<S, M>, s: S, ms: seq<M>, d: nat)
    ensures PassChildValues(g, s, ms, d) == NegChildValues(Silent(g), s, ms, d)
    decreases d, 2
  {
    forall i | 0 <= i < |ms|
      ensures PassChildValues(g, s, ms, d)[i] == NegChildValues(Silent(g), s, ms, d)[i]
    {
      PassIsNegamax(g, g.play(s, ms[i]), d);
    }
  }

  /** The negamax rule picks the move of negamax over the game that passes in place, for any initial best score. */
  lemma PassChoiceIsNegamax<S(!new), M>(g: Game<S, M>, s: S, depth: nat, seed: int)
    ensures PassChoice(g, s, depth, seed) == NegamaxChoice(Silent(g), s, depth, seed)
  {
    if !(depth == 0 || g.isOver(s) || |g.moves(s)| == 0) {
      PassChildren(g, s, g.moves(s), depth - 1);
    }
  }

  class IA<S(!new), M(!new)> {
    const algo: Algorithm
    const game: Game<S, M>
    var state: S

    constructor (algo: Algorithm, game: Game<S, M>, start: S)
      ensures this.algo == algo && this.game == game && state == start
    {
      this.algo := algo;
      this.game := game;
      state := start;
    }

    /** The no-argument constructor, which selects negamax. */
    constructor WithDefaultAlgorithm(game: Game<S, M>, start: S)
      ensures algo == NEGAMAX && this.game == game && state == start
    {
      algo := NEGAMAX;
      this.game := game;
      state := start;
    }

    method MakeMove(m: M)
      modifies this
      ensures state == game.play(old(state), m)
    {
      state := game.play(state, m);
    }

    method UnmakeMove(m: M)
      modifies this
      ensures state == game.undo(old(state), m)
    {
      state := game.undo(state, m);
    }

    /**
     * The best move for the player to move, searched to the difficulty's depth
     * `depth` by the selected rule: whatever the rule and the parity of the
     * depth, the move the negamax rule of this engine picks, which is the move
     * negamax picks over the game that passes in place (`PassChoiceIsNegamax`).
     */
    method GetBestMove(depth: nat) returns (best: Option<M>)
      requires Lawful(game)
      modifies this
      ensures state == old(state)
      ensures best == PassChoice(game, old(state), depth, -game.maxEvaluateValue)
    {
      match algo {
        case MINIMAX => best := MinimaxRoot(depth);
        case ALPHA_BETA => best := AlphaBetaRoot(depth);
        case NEGAMAX => best := NegamaxRoot(depth);
        case NEGASCOUT => best := NegascoutRoot(depth);
      }
    }

    /** The root call of minimax, `minimax(wrapper, 0, DEPTH)`. */
    method MinimaxRoot(depth: nat) returns (best: Option<M>)
      requires Reversible(game)
      modifies this
      ensures state == old(state)
      ensures best == PassChoice(game, old(state), depth, -game.maxEvaluateValue)
    {
      ghost var s0 := state;
      var _, b := Minimax(0, depth);
      UpRootChoice(game, s0, depth, b);
      best := b;
    }

    /** The root call of alpha-beta, with the full window. */
    method AlphaBetaRoot(depth: nat) returns (best: Option<M>)
      requires Lawful(game)
      modifies this
      ensures state == old(state)
      ensures best == PassChoice(game, old(state), depth, -game.maxEvaluateValue)
    {
      ghost var s0 := state;
      var b := AlphaBetaWindow(depth);
      UpRootChoice(game, s0, depth, b);
      best := b;
    }

    /** Alpha-beta over the full window picks the move plain minimax picks at the root. */
    method AlphaBetaWindow(depth: nat) returns (best: Option<M>)
      requires Lawful(game)
      modifies this
      ensures state == old(state)
      ensures best == UpChoice(game, old(state), 0, depth, UpSeed(game, 0, depth))
    {
      ghost var s0 := state;
      assert -game.maxEvaluateValue < UpValue(game, s0, 0, depth) < game.maxEvaluateValue;
      var _, b := AlphaBeta(0, depth, -game.maxEvaluateValue, game.maxEvaluateValue);
      UpRootWindow(game, s0, depth, b);
      best := b;
    }

    /** The root call of negamax, with the full window. */
    method NegamaxRoot(depth: nat) returns (best: Option<M>)
      requires Lawful(game)
      modifies this
      ensures state == old(state)
      ensures best == PassChoice(game, old(state), depth, -game.maxEvaluateValue)
    {
      assert -game.maxEvaluateValue < PassValue(game, state, depth) < game.maxEvaluateValue;
      var _, b := Negamax(depth, -game.maxEvaluateValue, game.maxEvaluateValue);
      best := b;
    }

    /** The root call of negascout, with the full window. */
    method NegascoutRoot(depth: nat) returns (best: Option<M>)
      requires Lawful(game)
      modifies this
      ensures state == old(state)
      ensures best == PassChoice(game, old(state), depth, -game.maxEvaluateValue)
    {
      assert -game.maxEvaluateValue < PassValue(game, state, depth) < game.maxEvaluateValue;
      var _, b := Negascout(depth, -game.maxEvaluateValue, game.maxEvaluateValue);
      best := b;
    }

    /** Plain minimax at `depth` of `maxDepth`. */
    method Minimax(depth: nat, maxDepth: nat) returns (score: int, best: Option<M>)
      requires Reversible(game) && depth <= maxDepth
      modifies this
      ensures state == old(state)
      ensures score == UpValue(game, old(state), depth, maxDepth)
      ensures best == UpChoice(game, old(state), depth, maxDepth, UpSeed(game, depth, maxDepth))
      ensures best.Some? ==> best.value in game.moves(old(state))
      decreases maxDepth - depth, 2
    {
      if depth == maxDepth {
        return game.evaluate(state), None;
      } else if game.isOver(state) {
        ParityTest(depth, maxDepth);
        return (if (maxDepth - depth) % 2 == 1 then -1 else 1) * game.evaluate(state), None;
      }
      var moves := game.moves(state);
      if |moves| == 0 {
        var r, _ := Minimax(depth + 1, maxDepth);
        return r, None;
      }
      ParityTest(depth, maxDepth);
      if depth % 2 == maxDepth % 2 {
        score, best := MinimaxMax(depth, maxDepth, moves);
      } else {
        score, best := MinimaxMin(depth, maxDepth, moves);
      }
    }

    /** The scan of the moves of a maximizing node that is neither a leaf nor a pass. */
    method MinimaxMax(depth: nat, maxDepth: nat, moves: seq<M>) returns (score: int, best: Option<M>)
      requires Reversible(game) && depth < maxDepth && moves == game.moves(state)
      modifies this
      ensures state == old(state)
      ensures score == Best(true, -game.maxEvaluateValue, UpChildValues(game, old(state), moves, depth + 1, maxDepth))
      ensures best == MoveAt(moves, BestIndex(true, -game.maxEvaluateValue, UpChildValues(game, old(state), moves, depth + 1, maxDepth)))
      decreases maxDepth - depth, 1
    {
      ghost var s0 := state;
      ghost var vals := UpChildValues(game, s0, moves, depth + 1, maxDepth);
      ghost var seed := -game.maxEvaluateValue;
      var bestScore := -game.maxEvaluateValue;
      best := None;
      var i := 0;
      while i < |moves|
        invariant 0 <= i <= |moves| && state == s0
        invariant bestScore == Best(true, seed, vals[..i])
        invariant best == MoveAt(moves, BestIndex(true, seed, vals[..i]))
      {
        var sc := MinimaxChild(depth, maxDepth, moves[i]);
        ScanStep(true, seed, vals, i, bestScore);
        if sc > bestScore {
          bestScore := sc;
          best := Some(moves[i]);
        }
        i := i + 1;
      }
      assert vals[..i] == vals;
      score := bestScore;
    }

    /** The scan of the moves of a minimizing node that is neither a leaf nor a pass. */
    method MinimaxMin(depth: nat, maxDepth: nat, moves: seq<M>) returns (score: int, best: Option<M>)
      requires Reversible(game) && depth < maxDepth && moves == game.moves(state)
      modifies this
      ensures state == old(state)
      ensures score == Best(false, game.maxEvaluateValue, UpChildValues(game, old(state), moves, depth + 1, maxDepth))
      ensures best == MoveAt(moves, BestIndex(false, game.maxEvaluateValue, UpChildValues(game, old(state), moves, depth + 1, maxDepth)))
      decreases maxDepth - depth, 1
    {
      ghost var s0 := state;
      ghost var vals := UpChildValues(game, s0, moves, depth + 1, maxDepth);
      ghost var seed := game.maxEvaluateValue;
      var bestScore := game.maxEvaluateValue;
      best := None;
      var i := 0;
      while i < |moves|
        invariant 0 <= i <= |moves| && state == s0
        invariant bestScore == Best(false, seed, vals[..i])
        invariant best == MoveAt(moves, BestIndex(false, seed, vals[..i]))
      {
        var sc := MinimaxChild(depth, maxDepth, moves[i]);
        ScanStep(false, seed, vals, i, bestScore);
        if sc < bestScore {
          bestScore := sc;
          best := Some(moves[i]);
        }
        i := i + 1;
      }
      assert vals[..i] == vals;
      score := bestScore;
    }

    /** Minimax with alpha-beta pruning at `depth` of `maxDepth`. */
    method AlphaBeta(depth: nat, maxDepth: nat, alpha: int, beta: int) returns (score: int, best: Option<M>)
      requires Reversible(game) && depth <= maxDepth
      requires -game.maxEvaluateValue <= alpha < beta <= game.maxEvaluateValue
      modifies this
      ensures state == old(state)
      ensures Bracketed(score, UpValue(game, old(state), depth, maxDepth), alpha, beta)
      ensures Maximizing(depth, maxDepth) && UpValue(game, old(state), depth, maxDepth) < beta ==>
              best == UpChoice(game, old(state), depth, maxDepth, alpha)
      ensures !Maximizing(depth, maxDepth) && alpha < UpValue(game, old(state), depth, maxDepth) ==>
              best == UpChoice(game, old(state), depth, maxDepth, beta)
      ensures best.Some? ==> best.value in game.moves(old(state))
      decreases maxDepth - depth, 2
    {
      if depth == maxDepth {
        return game.evaluate(state), None;
      } else if game.isOver(state) {
        ParityTest(depth, maxDepth);
        return (if (maxDepth - depth) % 2 == 1 then -1 else 1) * game.evaluate(state), None;
      }
      var moves := game.moves(state);
      if |moves| == 0 {
        var r, _ := AlphaBeta(depth + 1, maxDepth, alpha, beta);
        return r, None;
      }
      ghost var s0 := state;
      ParityTest(depth, maxDepth);
      if depth % 2 == maxDepth % 2 {
        score, best := AlphaBetaMax(depth, maxDepth, moves, alpha, beta);
        UpMaxNode(game, s0, depth, maxDepth, alpha, beta, score, best);
      } else {
        score, best := AlphaBetaMin(depth, maxDepth, moves, alpha, beta);
        UpMinNode(game, s0, depth, maxDepth, alpha, beta, score, best);
      }
    }

    /** The scan of the moves of a maximizing node that is neither a leaf nor a pass. */
    method AlphaBetaMax(depth: nat, maxDepth: nat, moves: seq<M>, alpha: int, beta: int) returns (score: int, best: Option<M>)
      requires Reversible(game) && depth < maxDepth && moves == game.moves(state)
      requires -game.maxEvaluateValue <= alpha < beta <= game.maxEvaluateValue
      modifies this
      ensures state == old(state)
      ensures Bracketed(score, Best(true, -game.maxEvaluateValue, UpChildValues(game, old(state), moves, depth + 1, maxDepth)), alpha, beta)
      ensures Best(true, -game.maxEvaluateValue, UpChildValues(game, old(state), moves, depth + 1, maxDepth)) < beta ==>
              best == MoveAt(moves, BestIndex(true, alpha, UpChildValues(game, old(state), moves, depth + 1, maxDepth)))
      ensures best.Some? ==> best.value in moves
      decreases maxDepth - depth, 1
    {
      ghost var s0 := state;
      ghost var vals := UpChildValues(game, s0, moves, depth + 1, maxDepth);
      best := None;
      var i := 0;
      var a := alpha;
      while i < |moves|
        invariant 0 <= i <= |moves| && state == s0
        invariant alpha <= a < beta && a == Best(true, alpha, vals[..i])
        invariant best == MoveAt(moves, BestIndex(true, alpha, vals[..i]))
      {
        var sc := AlphaBetaChild(depth, maxDepth, moves[i], a, beta);
        MaxStep(alpha, beta, vals, i, a, sc);
        if sc > a {
          a := sc;
          best := Some(moves[i]);
          if a >= beta {
            MaxCut(-game.maxEvaluateValue, alpha, beta, vals, i, sc);
            break;
          }
        }
        i := i + 1;
      }
      if a < beta {
        assert vals[..i] == vals;
        MaxExit(-game.maxEvaluateValue, alpha, beta, vals);
      }
      score := a;
    }

    /** The scan of the moves of a minimizing node that is neither a leaf nor a pass. */
    method AlphaBetaMin(depth: nat, maxDepth: nat, moves: seq<M>, alpha: int, beta: int) returns (score: int, best: Option<M>)
      requires Reversible(game) && depth < maxDepth && moves == game.moves(state)
      requires -game.maxEvaluateValue <= alpha < beta <= game.maxEvaluateValue
      modifies this
      ensures state == old(state)
      ensures Bracketed(score, Best(false, game.maxEvaluateValue, UpChildValues(game, old(state), moves, depth + 1, maxDepth)), alpha, beta)
      ensures alpha < Best(false, game.maxEvaluateValue, UpChildValues(game, old(state), moves, depth + 1, maxDepth)) ==>
              best == MoveAt(moves, BestIndex(false, beta, UpChildValues(game, old(state), moves, depth + 1, maxDepth)))
      ensures best.Some? ==> best.value in moves
      decreases maxDepth - depth, 1
    {
      ghost var s0 := state;
      ghost var vals := UpChildValues(game, s0, moves, depth + 1, maxDepth);
      best := None;
      var i := 0;
      var b := beta;
      while i < |moves|
        invariant 0 <= i <= |moves| && state == s0
        invariant alpha < b <= beta && b == Best(false, beta, vals[..i])
        invariant best == MoveAt(moves, BestIndex(false, beta, vals[..i]))
      {
        var sc := AlphaBetaChild(depth, maxDepth, moves[i], alpha, b);
        MinStep(alpha, beta, vals, i, b, sc);
        if sc < b {
          b := sc;
          best := Some(moves[i]);
          if alpha >= b {
            MinCut(game.maxEvaluateValue, alpha, beta, vals, i, sc);
            break;
          }
        }
        i := i + 1;
      }
      if alpha < b {
        assert vals[..i] == vals;
        MinExit(game.maxEvaluateValue, alpha, beta, vals);
      }
      score := b;
    }

    method Negamax(depth: nat, alpha: int, beta: int) returns (score: int, best: Option<M>)
      requires Reversible(game)
      requires -game.maxEvaluateValue <= alpha < beta <= game.maxEvaluateValue
      modifies this
      ensures state == old(state)
      ensures Bracketed(score, PassValue(game, old(state), depth), alpha, beta)
      ensures PassValue(game, old(state), depth) < beta ==> best == PassChoice(game, old(state), depth, alpha)
      ensures best.Some? ==> best.value in game.moves(old(state))
      decreases depth, 2
    {
      if depth == 0 || game.isOver(state) {
        return game.evaluate(state), None;
      }
      var moves := game.moves(state);
      if |moves| == 0 {
        var r, _ := Negamax(depth - 1, -beta, -alpha);
        BracketedNegate(-r, -PassValue(game, state, depth - 1), alpha, beta);
        return -r, None;
      }
      ghost var s0 := state;
      score, best := NegamaxMoves(depth, moves, alpha, beta);
      PassNode(game, s0, depth, alpha, beta, score, best);
    }

    /** The scan of the moves of a node that is neither a leaf nor a pass. */
    method NegamaxMoves(depth: nat, moves: seq<M>, alpha: int, beta: int) returns (score: int, best: Option<M>)
      requires Reversible(game) && depth >= 1 && !game.isOver(state)
      requires moves == game.moves(state) && |moves| > 0
      requires -game.maxEvaluateValue <= alpha < beta <= game.maxEvaluateValue
      modifies this
      ensures state == old(state)
      ensures Bracketed(score, Best(true, -game.maxEvaluateValue, PassChildValues(game, old(state), moves, depth - 1)), alpha, beta)
      ensures Best(true, -game.maxEvaluateValue, PassChildValues(game, old(state), moves, depth - 1)) < beta ==>
              best == MoveAt(moves, BestIndex(true, alpha, PassChildValues(game, old(state), moves, depth - 1)))
      ensures best.Some? ==> best.value in moves
      decreases depth, 1
    {
      ghost var s0 := state;
      ghost var vals := PassChildValues(game, s0, moves, depth - 1);
      ghost var lo := -game.maxEvaluateValue;
      best := None;
      var a := alpha;
      var i := 0;
      while i < |moves|
        invariant 0 <= i <= |moves| && state == s0
        invariant alpha <= a < beta && a == Best(true, alpha, vals[..i])
        invariant best == MoveAt(moves, BestIndex(true, alpha, vals[..i]))
      {
        var sc := NegamaxChild(depth, moves[i], a, beta);
        MaxStep(alpha, beta, vals, i, a, sc);
        if sc > a {
          a := sc;
          best := Some(moves[i]);
          if a >= beta {
            MaxCut(lo, alpha, beta, vals, i, sc);
            break;
          }
        }
        i := i + 1;
      }
      if a < beta {
        assert vals[..i] == vals;
        MaxExit(-game.maxEvaluateValue, alpha, beta, vals);
      }
      score := a;
    }

    method Negascout(depth: nat, alpha: int, beta: int) returns (score: int, best: Option<M>)
      requires Reversible(game)
      requires -game.maxEvaluateValue <= alpha < beta <= game.maxEvaluateValue
      modifies this
      ensures state == old(state)
      ensures Bracketed(score, PassValue(game, old(state), depth), alpha, beta)
      ensures PassValue(game, old(state), depth) < beta ==> best == PassChoice(game, old(state), depth, alpha)
      ensures best.Some? ==> best.value in game.moves(old(state))
      decreases depth, 2
    {
      if depth == 0 || game.isOver(state) {
        return game.evaluate(state), None;
      }
      var moves := game.moves(state);
      if |moves| == 0 {
        var r, _ := Negascout(depth - 1, -beta, -alpha);
        BracketedNegate(-r, -PassValue(game, state, depth - 1), alpha, beta);
        return -r, None;
      }
      ghost var s0 := state;
      score, best := NegascoutMoves(depth, moves, alpha, beta);
      PassNode(game, s0, depth, alpha, beta, score, best);
    }

    /** The scan of the moves of a node that is neither a leaf nor a pass. */
    method NegascoutMoves(depth: nat, moves: seq<M>, alpha: int, beta: int) returns (score: int, best: Option<M>)
      requires Reversible(game) && depth >= 1 && !game.isOver(state)
      requires moves == game.moves(state) && |moves| > 0
      requires -game.maxEvaluateValue <= alpha < beta <= game.maxEvaluateValue
      modifies this
      ensures state == old(state)
      ensures Bracketed(score, Best(true, -game.maxEvaluateValue, PassChildValues(game, old(state), moves, depth - 1)), alpha, beta)
      ensures Best(true, -game.maxEvaluateValue, PassChildValues(game, old(state), moves, depth - 1)) < beta ==>
              best == MoveAt(moves, BestIndex(true, alpha, PassChildValues(game, old(state), moves, depth - 1)))
      ensures best.Some? ==> best.value in moves
      decreases depth, 1
    {
      var b := beta;
      ghost var s0 := state;
      ghost var vals := PassChildValues(game, s0, moves, depth - 1);
      ghost var lo := -game.maxEvaluateValue;
      best := None;
      var a := alpha;
      var first := true;
      var i := 0;
      while i < |moves|
        invariant 0 <= i <= |moves| && state == s0
        invariant alpha <= a < beta && a == Best(true, alpha, vals[..i])
        invariant best == MoveAt(moves, BestIndex(true, alpha, vals[..i]))
        invariant ScoutWindow(first, a, beta, b)
      {
        var sc := ScoutChild(first, depth, moves[i], a, beta, b);
        MaxStep(alpha, beta, vals, i, a, sc);
        if sc > a {
          a := sc;
          best := Some(moves[i]);
          if a >= beta {
            MaxCut(lo, alpha, beta, vals, i, sc);
            break;
          }
        }
        b := a + 1;
        first := false;
        i := i + 1;
      }
      if a < beta {
        assert vals[..i] == vals;
        MaxExit(-game.maxEvaluateValue, alpha, beta, vals);
      }
      score := a;
    }

    /**
     * The search of the child `m` inside the negascout loop: the first child with
     * the full window, the others with the null window first and again with the
     * full window when the probe lands strictly inside it.
     */
    method ScoutChild(first: bool, depth: nat, m: M, alpha: int, beta: int, b: int) returns (score: int)
      requires Reversible(game) && depth >= 1 && m in game.moves(state)
      requires -game.maxEvaluateValue <= alpha < beta <= game.maxEvaluateValue
      requires ScoutWindow(first, alpha, beta, b)
      modifies this
      ensures state == old(state)
      ensures Bracketed(score, -PassValue(game, game.play(old(state), m), depth - 1), alpha, beta)
      decreases depth, 0
    {
      ghost var v := -PassValue(game, game.play(state, m), depth - 1);
      MakeMove(m);
      var r, _ := Negascout(depth - 1, -b, -alpha);
      score := -r;
      BracketedNegate(score, v, alpha, b);
      if !first && alpha < score && score < beta {
        var r2, _ := Negascout(depth - 1, -beta, -alpha);
        score := -r2;
        BracketedNegate(score, v, alpha, beta);
      } else if !first {
        NullWindowProbe(score, v, alpha, beta);
      }
      UnmakeMove(m);
    }

    /** The child `m` of a minimax node, searched one ply deeper. */
    method MinimaxChild(depth: nat, maxDepth: nat, m: M) returns (score: int)
      requires Reversible(game) && depth < maxDepth && m in game.moves(state)
      modifies this
      ensures state == old(state)
      ensures score == UpValue(game, game.play(old(state), m), depth + 1, maxDepth)
      decreases maxDepth - depth, 0
    {
      MakeMove(m);
      var r, _ := Minimax(depth + 1, maxDepth);
      UnmakeMove(m);
      score := r;
    }

    /** The child `m` of an alpha-beta node, searched one ply deeper with the window `(alpha, beta)`. */
    method AlphaBetaChild(depth: nat, maxDepth: nat, m: M, alpha: int, beta: int) returns (score: int)
      requires Reversible(game) && depth < maxDepth && m in game.moves(state)
      requires -game.maxEvaluateValue <= alpha < beta <= game.maxEvaluateValue
      modifies this
      ensures state == old(state)
      ensures Bracketed(score, UpValue(game, game.play(old(state), m), depth + 1, maxDepth), alpha, beta)
      decreases maxDepth - depth, 0
    {
      MakeMove(m);
      var r, _ := AlphaBeta(depth + 1, maxDepth, alpha, beta);
      UnmakeMove(m);
      score := r;
    }

    /** The child `m` of a negamax node, searched one ply shallower with the negated window, its score negated. */
    method NegamaxChild(depth: nat, m: M, alpha: int, beta: int) returns (score: int)
      requires Reversible(game) && depth >= 1 && m in game.moves(state)
      requires -game.maxEvaluateValue <= alpha < beta <= game.maxEvaluateValue
      modifies this
      ensures state == old(state)
      ensures Bracketed(score, -PassValue(game, game.play(old(state), m), depth - 1), alpha, beta)
      decreases depth, 0
    {
      ghost var v := -PassValue(game, game.play(state, m), depth - 1);
      MakeMove(m);
      var r, _ := Negamax(depth - 1, -beta, -alpha);
      score := -r;
      BracketedNegate(score, v, alpha, beta);
      UnmakeMove(m);
    }
  }
}
