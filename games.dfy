/**
 * The contract a game implements to be searched: the abstract methods `isOver`,
 * `makeMove`, `unmakeMove`, `getPossibleMoves`, `evaluate`, `maxEvaluateValue`,
 * `next` and `previous` of the abstract `Minimax` class, given here as a record
 * of functions over a game state `S` and moves `M`.
 */
module Games {
  datatype Game<!S, !M> = Game(
    isOver: S -> bool,
    moves: S -> seq<M>,
    play: (S, M) -> S,
    undo: (S, M) -> S,
    next: S -> S,
    previous: S -> S,
    evaluate: S -> int,
    maxEvaluateValue: int)

  /** `unmakeMove` restores the state `makeMove` left, and `previous` undoes `next`. */
  ghost predicate Reversible<S(!new), M(!new)>(g: Game<S, M>) {
    (forall s, m | m in g.moves(s) :: g.undo(g.play(s, m), m) == s) &&
    (forall s :: g.previous(g.next(s)) == s)
  }

  /** `maxEvaluateValue` is a strict bound on the absolute value of `evaluate`. */
  ghost predicate EvalBounded<S(!new), M>(g: Game<S, M>) {
    forall s :: -g.maxEvaluateValue < g.evaluate(s) < g.maxEvaluateValue
  }

  /** Everything the abstract class documents about its abstract methods. */
  ghost predicate Lawful<S(!new), M(!new)>(g: Game<S, M>) {
    Reversible(g) && EvalBounded(g)
  }

  /**
   * The same game searched by a rule that passes without calling `next` and
   * `previous`: a pass leaves the state as it is and only the side to move changes.
   */
  function Silent<S(!new), M>(g: Game<S, M>): (h: Game<S, M>)
    ensures h.isOver == g.isOver && h.moves == g.moves && h.play == g.play && h.undo == g.undo
    ensures h.evaluate == g.evaluate && h.maxEvaluateValue == g.maxEvaluateValue
    ensures forall s :: h.next(s) == s && h.previous(s) == s
  {
    g.(next := s => s, previous := s => s)
  }

  lemma SilentIsLawful<S(!new), M(!new)>(g: Game<S, M>)
    requires Lawful(g)
    ensures Lawful(Silent(g))
  {
  }
}
