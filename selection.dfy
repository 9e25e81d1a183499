/**
 * How a search node picks among the scores of its children: the running best
 * value that starts from a seed (`-maxEvaluateValue`, `+maxEvaluateValue` or the
 * incoming window bound) and is replaced only by a strictly better score, the
 * index of the child that set it, and the window property of a pruned search.
 */
module Selection {
  import opened Wrappers

  /** `b` is strictly better than `a` for the maximizing or the minimizing side. */
  predicate Improves(maximizing: bool, a: int, b: int) {
    if maximizing then b > a else b < a
  }

  /** The running best after scanning `xs` from the left, starting from `seed`. */
  function Best(maximizing: bool, seed: int, xs: seq<int>): (r: int)
    ensures !Improves(maximizing, r, seed)
    ensures forall j :: 0 <= j < |xs| ==> !Improves(maximizing, r, xs[j])
    ensures r == seed || exists j :: 0 <= j < |xs| && r == xs[j]
    decreases |xs|
  {
    if |xs| == 0 then seed
    else
      var p := Best(maximizing, seed, xs[..|xs| - 1]);
      if Improves(maximizing, p, xs[|xs| - 1]) then xs[|xs| - 1] else p
  }

  /**
   * The index of the child whose score last replaced the running best, that is,
   * the first child reaching the best value: ties keep the earlier child.
   */
  function BestIndex(maximizing: bool, seed: int, xs: seq<int>): (r: Option<nat>)
    ensures r.Some? ==> r.value < |xs| && xs[r.value] == Best(maximizing, seed, xs)
    ensures r.Some? ==> Improves(maximizing, seed, xs[r.value])
    ensures r.Some? ==> forall j :: 0 <= j < r.value ==> Improves(maximizing, xs[j], xs[r.value])
    ensures r.None? <==> forall j :: 0 <= j < |xs| ==> !Improves(maximizing, seed, xs[j])
    ensures r.None? ==> Best(maximizing, seed, xs) == seed
    decreases |xs|
  {
    if |xs| == 0 then None
    else if Improves(maximizing, Best(maximizing, seed, xs[..|xs| - 1]), xs[|xs| - 1]) then Some(|xs| - 1)
    else BestIndex(maximizing, seed, xs[..|xs| - 1])
  }

  /**
   * The window property of a fail-hard search with exact leaves: inside the
   * window `(a, b)` the result is the exact value `v`; when the value fails low
   * the result lies between `v` and `a`, when it fails high between `b` and `v`.
   */
  predicate Bracketed(r: int, v: int, a: int, b: int) {
    (a < v < b ==> r == v) && (v <= a ==> v <= r <= a) && (b <= v ==> b <= r <= v)
  }

  lemma BracketedNegate(r: int, v: int, a: int, b: int)
    ensures Bracketed(-r, -v, -b, -a) <==> Bracketed(r, v, a, b)
  {
  }

  /**
   * A null-window probe `(alpha, alpha + 1)` on integer scores that lands outside
   * `(alpha, beta)` already answers the full window `(alpha, beta)`.
   */
  lemma NullWindowProbe(r: int, v: int, alpha: int, beta: int)
    requires alpha < beta && Bracketed(r, v, alpha, alpha + 1) && !(alpha < r < beta)
    ensures Bracketed(r, v, alpha, beta)
  {
  }

  /** Raising the seed of a maximizing scan to `alpha` clips its result from below. */
  lemma {:induction false} BestRaisedSeed(seed: int, alpha: int, xs: seq<int>)
    requires seed <= alpha
    ensures Best(true, alpha, xs) == if Best(true, seed, xs) > alpha then Best(true, seed, xs) else alpha
    decreases |xs|
  {
    if |xs| > 0 {
      BestRaisedSeed(seed, alpha, xs[..|xs| - 1]);
    }
  }

  /** Lowering the seed of a minimizing scan to `beta` clips its result from above. */
  lemma {:induction false} BestLoweredSeed(seed: int, beta: int, xs: seq<int>)
    requires beta <= seed
    ensures Best(false, beta, xs) == if Best(false, seed, xs) < beta then Best(false, seed, xs) else beta
    decreases |xs|
  {
    if |xs| > 0 {
      BestLoweredSeed(seed, beta, xs[..|xs| - 1]);
    }
  }

  /**
   * One step of a scan with exact scores: a strictly better score replaces the
   * running best and becomes the picked child, any other score changes nothing.
   */
  lemma ScanStep(maximizing: bool, seed: int, vals: seq<int>, i: nat, cur: int)
    requires i < |vals| && cur == Best(maximizing, seed, vals[..i])
    ensures Improves(maximizing, cur, vals[i]) ==>
            Best(maximizing, seed, vals[..i + 1]) == vals[i] && BestIndex(maximizing, seed, vals[..i + 1]) == Some(i)
    ensures !Improves(maximizing, cur, vals[i]) ==>
            Best(maximizing, seed, vals[..i + 1]) == cur && BestIndex(maximizing, seed, vals[..i + 1]) == BestIndex(maximizing, seed, vals[..i])
  {
    assert vals[..i + 1][..i] == vals[..i];
  }

  /**
   * One child of a maximizing node searched with the window `(a, beta)`, where
   * `a` is the running best so far: a score above `a` and below `beta` is the
   * child's exact value and becomes the running best, a score at most `a` changes
   * nothing, and a score reaching `beta` shows the child's value reaches it too.
   */
  lemma MaxStep(alpha: int, beta: int, vals: seq<int>, i: nat, a: int, sc: int)
    requires i < |vals| && a == Best(true, alpha, vals[..i]) && a < beta
    requires Bracketed(sc, vals[i], a, beta)
    ensures a < sc < beta ==> sc == Best(true, alpha, vals[..i + 1]) && BestIndex(true, alpha, vals[..i + 1]) == Some(i)
    ensures sc <= a ==> a == Best(true, alpha, vals[..i + 1]) && BestIndex(true, alpha, vals[..i + 1]) == BestIndex(true, alpha, vals[..i])
    ensures beta <= sc ==> beta <= sc <= vals[i]
  {
    assert vals[..i + 1][..i] == vals[..i];
  }

  /** The mirror of `MaxStep` for a minimizing node, whose running best is `b`. */
  lemma MinStep(alpha: int, beta: int, vals: seq<int>, i: nat, b: int, sc: int)
    requires i < |vals| && b == Best(false, beta, vals[..i]) && alpha < b
    requires Bracketed(sc, vals[i], alpha, b)
    ensures alpha < sc < b ==> sc == Best(false, beta, vals[..i + 1]) && BestIndex(false, beta, vals[..i + 1]) == Some(i)
    ensures b <= sc ==> b == Best(false, beta, vals[..i + 1]) && BestIndex(false, beta, vals[..i + 1]) == BestIndex(false, beta, vals[..i])
    ensures sc <= alpha ==> vals[i] <= sc <= alpha
  {
    assert vals[..i + 1][..i] == vals[..i];
  }

  /** A maximizing node that scanned every child without a cut-off. */
  lemma MaxExit(seed: int, alpha: int, beta: int, vals: seq<int>)
    requires seed <= alpha < beta && Best(true, alpha, vals) < beta
    ensures Bracketed(Best(true, alpha, vals), Best(true, seed, vals), alpha, beta)
    ensures Best(true, seed, vals) < beta
  {
    BestRaisedSeed(seed, alpha, vals);
  }

  /** A minimizing node that scanned every child without a cut-off. */
  lemma MinExit(seed: int, alpha: int, beta: int, vals: seq<int>)
    requires alpha < beta <= seed && alpha < Best(false, beta, vals)
    ensures Bracketed(Best(false, beta, vals), Best(false, seed, vals), alpha, beta)
    ensures alpha < Best(false, seed, vals)
  {
    BestLoweredSeed(seed, beta, vals);
  }

  /** A maximizing node cut off at child `i`, whose score `sc` reached `beta`. */
  lemma MaxCut(seed: int, alpha: int, beta: int, vals: seq<int>, i: nat, sc: int)
    requires alpha < beta && i < |vals| && beta <= sc <= vals[i]
    ensures Bracketed(sc, Best(true, seed, vals), alpha, beta)
    ensures beta <= Best(true, seed, vals)
  {
  }

  /** A minimizing node cut off at child `i`, whose score `sc` fell to `alpha`. */
  lemma MinCut(seed: int, alpha: int, beta: int, vals: seq<int>, i: nat, sc: int)
    requires alpha < beta && i < |vals| && vals[i] <= sc <= alpha
    ensures Bracketed(sc, Best(false, seed, vals), alpha, beta)
    ensures Best(false, seed, vals) <= alpha
  {
  }

  /** A score at least every other and above the seed is the best of a maximizing scan. */
  lemma BestOfDominated(seed: int, xs: seq<int>, j: nat)
    requires j < |xs| && seed < xs[j] && forall k :: 0 <= k < |xs| ==> xs[k] <= xs[j]
    ensures Best(true, seed, xs) == xs[j]
  {
  }
}
