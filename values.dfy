/**
 * Reference values of the game tree: the plain minimax value over the side to
 * move `who` (+1 maximizes, -1 minimizes), the negamax value from the point of
 * view of the player to move, and the move a root node selects. A node is a leaf
 * when the remaining depth is 0 or the game is over; a node without moves passes
 * through `next` and searches the same depth minus one.
 */
module Values {
  import opened Wrappers
  import opened Games
  import opened Selection

  /** The starting best score of a node: `-maxEvaluateValue` for the maximizing side, `+maxEvaluateValue` otherwise. */
  function Seed<S, M>(g: Game<S, M>, who: int): int {
    if who > 0 then -g.maxEvaluateValue else g.maxEvaluateValue
  }

  function MinimaxValue<S, M>(g: Game<S, M>, s: S, depth: nat, who: int): int
    decreases depth, 1
  {
    if depth == 0 || g.isOver(s) then who * g.evaluate(s)
    else if |g.moves(s)| == 0 then MinimaxValue(g, g.next(s), depth - 1, -who)
    else Best(who > 0, Seed(g, who), ChildValues(g, s, g.moves(s), depth - 1, who))
  }

  /** The minimax values of the children `ms` of `s`, searched to depth `d` by the other side. */
  function ChildValues<S, M>(g: Game<S, M>, s: S, ms: seq<M>, d: nat, who: int): seq<int>
    decreases d, 2
  {
    seq(|ms|, i requires 0 <= i < |ms| => MinimaxValue(g, g.play(s, ms[i]), d, -who))
  }

  function NegamaxValue<S, M>(g: Game<S, M>, s: S, depth: nat): int
    decreases depth, 1
  {
    if depth == 0 || g.isOver(s) then g.evaluate(s)
    else if |g.moves(s)| == 0 then -NegamaxValue(g, g.next(s), depth - 1)
    else Best(true, -g.maxEvaluateValue, NegChildValues(g, s, g.moves(s), depth - 1))
  }

  /** The negated negamax values of the children `ms` of `s`: their scores for the player at `s`. */
  function NegChildValues<S, M>(g: Game<S, M>, s: S, ms: seq<M>, d: nat): seq<int>
    decreases d, 2
  {
    seq(|ms|, i requires 0 <= i < |ms| => -NegamaxValue(g, g.play(s, ms[i]), d))
  }

  function MoveAt<M>(ms: seq<M>, k: Option<nat>): Option<M>
    requires k.Some? ==> k.value < |ms|
  {
    if k.Some? then Some(ms[k.value]) else None
  }

  /**
   * The move a node stores in its result slot: none at a leaf or a pass, otherwise
   * the first child whose score strictly improved on `seed` and was never beaten.
   */
  function Choice<S, M>(g: Game<S, M>, s: S, depth: nat, who: int, seed: int): Option<M> {
    if depth == 0 || g.isOver(s) || |g.moves(s)| == 0 then None
    else MoveAt(g.moves(s), BestIndex(who > 0, seed, ChildValues(g, s, g.moves(s), depth - 1, who)))
  }

  function NegamaxChoice<S, M>(g: Game<S, M>, s: S, depth: nat, seed: int): Option<M> {
    if depth == 0 || g.isOver(s) || |g.moves(s)| == 0 then None
    else MoveAt(g.moves(s), BestIndex(true, seed, NegChildValues(g, s, g.moves(s), depth - 1)))
  }

  /** The move the plain minimax rule returns for the maximizing player at the root. */
  function MinimaxChoice<S, M>(g: Game<S, M>, s: S, depth: nat): Option<M> {
    Choice(g, s, depth, 1, -g.maxEvaluateValue)
  }

  function Negated(xs: seq<int>): (ys: seq<int>)
    ensures |ys| == |xs| && forall i :: 0 <= i < |xs| ==> ys[i] == -xs[i]
  {
    seq(|xs|, i requires 0 <= i < |xs| => -xs[i])
  }

  /** A minimizing scan is a maximizing scan of the negated scores. */
  lemma {:induction false} BestNegated(seed: int, xs: seq<int>)
    ensures Best(false, seed, xs) == -Best(true, -seed, Negated(xs))
    decreases |xs|
  {
    if |xs| > 0 {
      var p := xs[..|xs| - 1];
      BestNegated(seed, p);
      assert Negated(xs)[..|xs| - 1] == Negated(p);
    }
  }

  /** The value minimax gives the side `who` is the negamax value seen from that side. */
  lemma {:induction false} MinimaxIsSignedNegamax<S, M>(g: Game<S, M>, s: S, depth: nat, who: int)
    requires who == 1 || who == -1
    ensures MinimaxValue(g, s, depth, who) == who * NegamaxValue(g, s, depth)
    decreases depth
  {
    if depth == 0 || g.isOver(s) {
    } else if |g.moves(s)| == 0 {
      MinimaxIsSignedNegamax(g, g.next(s), depth - 1, -who);
    } else {
      var ms := g.moves(s);
      var cv := ChildValues(g, s, ms, depth - 1, who);
      var nv := NegChildValues(g, s, ms, depth - 1);
      forall i | 0 <= i < |ms|
        ensures cv[i] == who * nv[i]
      {
        MinimaxIsSignedNegamax(g, g.play(s, ms[i]), depth - 1, -who);
      }
      if who == 1 {
        assert cv == nv;
      } else {
        assert cv == Negated(nv);
        assert Negated(cv) == nv;
        BestNegated(g.maxEvaluateValue, cv);
      }
    }
  }

  /** At the root the maximizing minimax rule and the negamax rule pick the same move. */
  lemma ChoiceAgrees<S, M>(g: Game<S, M>, s: S, depth: nat)
    ensures NegamaxChoice(g, s, depth, -g.maxEvaluateValue) == MinimaxChoice(g, s, depth)
  {
    if !(depth == 0 || g.isOver(s) || |g.moves(s)| == 0) {
      var ms := g.moves(s);
      var cv := ChildValues(g, s, ms, depth - 1, 1);
      var nv := NegChildValues(g, s, ms, depth - 1);
      forall i | 0 <= i < |ms|
        ensures cv[i] == nv[i]
      {
        MinimaxIsSignedNegamax(g, g.play(s, ms[i]), depth - 1, -1);
      }
      assert cv == nv;
    }
  }

  /** A minimizing scan picks the child a maximizing scan of the negated scores picks. */
  lemma {:induction false} BestIndexNegated(seed: int, xs: seq<int>)
    ensures BestIndex(false, seed, xs) == BestIndex(true, -seed, Negated(xs))
    decreases |xs|
  {
    if |xs| > 0 {
      var p := xs[..|xs| - 1];
      var n := Negated(xs);
      assert n[..|xs| - 1] == Negated(p);
      BestIndexNegated(seed, p);
      BestNegated(seed, p);
      assert BestIndex(true, -seed, n) == if Improves(true, Best(true, -seed, Negated(p)), -xs[|xs| - 1])
                                          then Some(|xs| - 1) else BestIndex(true, -seed, Negated(p));
    }
  }

  /** A minimizing root picks the move the negamax rule picks for the player to move there. */
  lemma MinChoiceAgrees<S, M>(g: Game<S, M>, s: S, depth: nat)
    ensures Choice(g, s, depth, -1, g.maxEvaluateValue) == NegamaxChoice(g, s, depth, -g.maxEvaluateValue)
  {
    if !(depth == 0 || g.isOver(s) || |g.moves(s)| == 0) {
      var ms := g.moves(s);
      var cv := ChildValues(g, s, ms, depth - 1, -1);
      var nv := NegChildValues(g, s, ms, depth - 1);
      forall i | 0 <= i < |ms|
        ensures cv[i] == -nv[i]
      {
        MinimaxIsSignedNegamax(g, g.play(s, ms[i]), depth - 1, 1);
      }
      assert Negated(cv) == nv;
      BestIndexNegated(g.maxEvaluateValue, cv);
    }
  }

  /** With a bounded evaluation every minimax value lies strictly inside `(-maxEvaluateValue, maxEvaluateValue)`. */
  lemma {:induction false} MinimaxValueBounded<S(!new), M>(g: Game<S, M>, s: S, depth: nat, who: int)
    requires EvalBounded(g) && (who == 1 || who == -1)
    ensures -g.maxEvaluateValue < MinimaxValue(g, s, depth, who) < g.maxEvaluateValue
    decreases depth
  {
    if depth == 0 || g.isOver(s) {
    } else if |g.moves(s)| == 0 {
      MinimaxValueBounded(g, g.next(s), depth - 1, -who);
    } else {
      var cv := ChildValues(g, s, g.moves(s), depth - 1, who);
      forall i | 0 <= i < |cv|
        ensures -g.maxEvaluateValue < cv[i] < g.maxEvaluateValue
      {
        MinimaxValueBounded(g, g.play(s, g.moves(s)[i]), depth - 1, -who);
      }
      assert !Improves(who > 0, Best(who > 0, Seed(g, who), cv), cv[0]);
    }
  }

  lemma NegamaxValueBounded<S(!new), M>(g: Game<S, M>, s: S, depth: nat)
    requires EvalBounded(g)
    ensures -g.maxEvaluateValue < NegamaxValue(g, s, depth) < g.maxEvaluateValue
  {
    MinimaxValueBounded(g, s, depth, 1);
    MinimaxIsSignedNegamax(g, s, depth, 1);
  }

  /**
   * What a root search needs: the root value lies strictly inside the initial
   * window, and the negamax rule's choice is the minimax rule's choice.
   */
  lemma RootAgreement<S(!new), M>(g: Game<S, M>, s: S, depth: nat)
    requires EvalBounded(g)
    ensures -g.maxEvaluateValue < MinimaxValue(g, s, depth, 1) < g.maxEvaluateValue
    ensures -g.maxEvaluateValue < NegamaxValue(g, s, depth) < g.maxEvaluateValue
    ensures NegamaxChoice(g, s, depth, -g.maxEvaluateValue) == MinimaxChoice(g, s, depth)
  {
    MinimaxValueBounded(g, s, depth, 1);
    NegamaxValueBounded(g, s, depth);
    ChoiceAgrees(g, s, depth);
  }

  /** What the full-window alpha-beta search with the maximizer at the root yields is the minimax move. */
  lemma AlphaBetaRootMove<S(!new), M>(g: Game<S, M>, s: S, depth: nat, b: Option<M>)
    requires EvalBounded(g)
    requires MinimaxValue(g, s, depth, 1) < g.maxEvaluateValue ==> b == Choice(g, s, depth, 1, -g.maxEvaluateValue)
    ensures b == MinimaxChoice(g, s, depth)
  {
    MinimaxValueBounded(g, s, depth, 1);
  }

  /** What the full-window negamax search of the root yields is the minimax move. */
  lemma NegamaxRootMove<S(!new), M>(g: Game<S, M>, s: S, depth: nat, b: Option<M>)
    requires EvalBounded(g)
    requires NegamaxValue(g, s, depth) < g.maxEvaluateValue ==> b == NegamaxChoice(g, s, depth, -g.maxEvaluateValue)
    ensures b == MinimaxChoice(g, s, depth)
  {
    RootAgreement(g, s, depth);
  }
}
