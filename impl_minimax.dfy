/**
 * The deprecated plain-minimax engine that scores every root move: each move of
 * the list the caller supplies gets, in its `value` slot, the minimax score of
 * the position it leads to, and the list is then sorted by `Move.compareTo`,
 * which puts unscored moves (`NaN`) first and the others by decreasing score.
 */
module ScoredMinimax {
  import opened Wrappers
  import opened Games
  import opened Selection
  import opened Values

  /** A move with its `value` slot; `None` is the `NaN` a fresh move carries. */
  datatype Scored<M> = Scored(move: M, value: Option<int>)

  function MovesOf<M>(xs: seq<Scored<M>>): (ms: seq<M>)
    ensures |ms| == |xs| && forall k :: 0 <= k < |xs| ==> ms[k] == xs[k].move
  {
    seq(|xs|, k requires 0 <= k < |xs| => xs[k].move)
  }

  /** Every listed move is a legal move at `s`. */
  ghost predicate LegalAt<S, M>(g: Game<S, M>, s: S, xs: seq<Scored<M>>) {
    forall k :: 0 <= k < |xs| ==> xs[k].move in g.moves(s)
  }

  /**
   * `a` sorts no later than `b` (`a.compareTo(b) <= 0`): an unscored move comes
   * before everything, and a scored one before every move with a score at most its own.
   */
  predicate Before<M>(a: Scored<M>, b: Scored<M>) {
    a.value.None? || (b.value.Some? && b.value.value <= a.value.value)
  }

  predicate Sorted<M>(xs: seq<Scored<M>>) {
    forall i, j :: 0 <= i < j < |xs| ==> Before(xs[i], xs[j])
  }

  /** Puts `x` in front of the first element it sorts no later than, so that it stays ahead of its equals. */
  function Insert<M(==, !new)>(x: Scored<M>, ys: seq<Scored<M>>): (r: seq<Scored<M>>)
    requires Sorted(ys)
    ensures Sorted(r) && multiset(r) == multiset(ys) + multiset{x}
    ensures forall z :: z in r <==> z == x || z in ys
    decreases |ys|
  {
    if |ys| == 0 then [x]
    else if Before(x, ys[0]) then
      [x] + ys
    else
      var rest := Insert(x, ys[1..]);
      HeadBeforeRest(ys);
      SortedCons(ys[0], rest);
      assert ys == [ys[0]] + ys[1..];
      [ys[0]] + rest
  }

  lemma HeadBeforeRest<M(!new)>(ys: seq<Scored<M>>)
    requires Sorted(ys) && |ys| > 0
    ensures forall z :: z in ys[1..] ==> Before(ys[0], z)
  {
    forall z | z in ys[1..]
      ensures Before(ys[0], z)
    {
      var k :| 0 <= k < |ys| - 1 && ys[1..][k] == z;
      assert z == ys[k + 1];
    }
  }

  /** A sorted list stays sorted behind an element that sorts no later than any of its elements. */
  lemma SortedCons<M(!new)>(y: Scored<M>, rest: seq<Scored<M>>)
    requires Sorted(rest) && forall z :: z in rest ==> Before(y, z)
    ensures Sorted([y] + rest)
  {
    var r := [y] + rest;
    forall i, j | 0 <= i < j < |r|
      ensures Before(r[i], r[j])
    {
      assert r[j] == rest[j - 1];
      if i > 0 {
        assert r[i] == rest[i - 1];
      } else {
        assert rest[j - 1] in rest;
      }
    }
  }

  /** `Collections.sort` of a list of moves. */
  function SortScores<M(==, !new)>(xs: seq<Scored<M>>): (r: seq<Scored<M>>)
    ensures Sorted(r) && multiset(r) == multiset(xs)
    decreases |xs|
  {
    if |xs| == 0 then []
    else
      assert xs == [xs[0]] + xs[1..];
      Insert(xs[0], SortScores(xs[1..]))
  }

  /** The elements of `xs` whose slot holds `v`, in their order in `xs`. */
  function WithValue<M>(xs: seq<Scored<M>>, v: Option<int>): seq<Scored<M>>
    decreases |xs|
  {
    if |xs| == 0 then [] else (if xs[0].value == v then [xs[0]] else []) + WithValue(xs[1..], v)
  }

  /** Inserting `x` puts it ahead of every element that `compareTo` finds equal to it. */
  lemma {:induction false} InsertStable<M(!new)>(x: Scored<M>, ys: seq<Scored<M>>, v: Option<int>)
    requires Sorted(ys)
    ensures WithValue(Insert(x, ys), v) == (if x.value == v then [x] else []) + WithValue(ys, v)
    decreases |ys|
  {
    if |ys| == 0 {
      assert WithValue([x], v) == (if x.value == v then [x] else []) + WithValue([], v);
    } else if Before(x, ys[0]) {
      assert ([x] + ys)[1..] == ys;
    } else {
      var rest := Insert(x, ys[1..]);
      assert Insert(x, ys) == [ys[0]] + rest;
      assert ([ys[0]] + rest)[1..] == rest;
      InsertStable(x, ys[1..], v);
      assert ys[0].value != x.value;
    }
  }

  /**
   * `Collections.sort` is stable, and so is the model: the moves that carry one
   * and the same value (or no value) keep their relative order.
   */
  lemma {:induction false} SortScoresStable<M(!new)>(xs: seq<Scored<M>>, v: Option<int>)
    ensures WithValue(SortScores(xs), v) == WithValue(xs, v)
    decreases |xs|
  {
    if |xs| > 0 {
      SortScoresStable(xs[1..], v);
      InsertStable(xs[0], SortScores(xs[1..]), v);
    }
  }

  /**
   * The list after the root search at `depth >= 1`: when the root is neither over
   * nor a pass, every move carries the minimax value of its child for the
   * minimizing side one ply shallower; otherwise nothing is written.
   */
  function RootScored<S, M>(g: Game<S, M>, s: S, depth: nat, xs: seq<Scored<M>>): seq<Scored<M>>
    requires depth >= 1
  {
    if g.isOver(s) || |xs| == 0 then xs
    else seq(|xs|, k requires 0 <= k < |xs| => xs[k].(value := Some(MinimaxValue(g, g.play(s, xs[k].move), depth - 1, -1))))
  }

  /** The value the root search returns, over the moves of the supplied list. */
  function RootValue<S, M>(g: Game<S, M>, s: S, depth: nat, xs: seq<Scored<M>>): int
    requires depth >= 1
  {
    if g.isOver(s) then g.evaluate(s)
    else if |xs| == 0 then MinimaxValue(g, g.next(s), depth - 1, -1)
    else Best(true, -g.maxEvaluateValue, ChildValues(g, s, MovesOf(xs), depth - 1, 1))
  }

  /** Scored over the legal moves in their own order, the root value is the minimax value. */
  lemma RootValueIsMinimax<S, M>(g: Game<S, M>, s: S, depth: nat, xs: seq<Scored<M>>)
    requires depth >= 1 && MovesOf(xs) == g.moves(s)
    ensures RootValue(g, s, depth, xs) == MinimaxValue(g, s, depth, 1)
  {
  }

  /** Only the `value` slots change, and each written one holds its child's value. */
  lemma RootScoredValues<S, M>(g: Game<S, M>, s: S, depth: nat, xs: seq<Scored<M>>)
    requires depth >= 1
    ensures MovesOf(RootScored(g, s, depth, xs)) == MovesOf(xs)
    ensures !g.isOver(s) && |xs| > 0 ==>
            forall k :: 0 <= k < |xs| ==> RootScored(g, s, depth, xs)[k].value == Some(ChildValues(g, s, MovesOf(xs), depth - 1, 1)[k])
  {
  }

  /** The head of the sorted list is one of its elements, with a score at least every other. */
  lemma SortedHead<M(!new)>(rs: seq<Scored<M>>) returns (j: nat)
    requires |rs| > 0 && forall k :: 0 <= k < |rs| ==> rs[k].value.Some?
    ensures |SortScores(rs)| > 0 && j < |rs| && SortScores(rs)[0] == rs[j]
    ensures forall k :: 0 <= k < |rs| ==> rs[k].value.value <= rs[j].value.value
  {
    var ts := SortScores(rs);
    assert |ts| == |rs| by { assert |multiset(ts)| == |multiset(rs)|; }
    assert ts[0] in multiset(rs);
    j :| 0 <= j < |rs| && rs[j] == ts[0];
    forall k | 0 <= k < |rs|
      ensures rs[k].value.value <= rs[j].value.value
    {
      assert rs[k] in multiset(ts);
      var i :| 0 <= i < |ts| && ts[i] == rs[k];
      assert Before(ts[0], ts[i]);
    }
  }

  /** Moves scored with values above `seed` sort behind a head that carries the best of those values. */
  lemma SortedTop<M(!new)>(rs: seq<Scored<M>>, seed: int, vals: seq<int>)
    requires |rs| == |vals| > 0
    requires forall k :: 0 <= k < |rs| ==> rs[k].value == Some(vals[k]) && seed < vals[k]
    ensures |SortScores(rs)| > 0 && SortScores(rs)[0].value == Some(Best(true, seed, vals))
  {
    var j := SortedHead(rs);
    BestOfDominated(seed, vals, j);
  }

  /**
   * With a bounded evaluation, when the root is searched over its legal moves,
   * the first move of the sorted list carries the best score, which is the minimax
   * value of the root for the maximizing player.
   */
  lemma TopScoreIsMinimaxValue<S(!new), M(!new)>(g: Game<S, M>, s: S, depth: nat, xs: seq<Scored<M>>)
    requires EvalBounded(g) && depth >= 1 && !g.isOver(s) && |xs| > 0 && MovesOf(xs) == g.moves(s)
    ensures |SortScores(RootScored(g, s, depth, xs))| > 0
    ensures SortScores(RootScored(g, s, depth, xs))[0].value == Some(MinimaxValue(g, s, depth, 1))
  {
    var vals := ChildValues(g, s, g.moves(s), depth - 1, 1);
    var lo := -g.maxEvaluateValue;
    RootScoredValues(g, s, depth, xs);
    ChildrenBounded(g, s, g.moves(s), depth - 1);
    SortedTop(RootScored(g, s, depth, xs), lo, vals);
    assert MinimaxValue(g, s, depth, 1) == Best(true, lo, vals);
  }

  /** With a bounded evaluation every child value of a maximizing node lies above `-maxEvaluateValue`. */
  lemma ChildrenBounded<S(!new), M>(g: Game<S, M>, s: S, ms: seq<M>, d: nat)
    requires EvalBounded(g)
    ensures forall k :: 0 <= k < |ms| ==> -g.maxEvaluateValue < ChildValues(g, s, ms, d, 1)[k]
  {
    forall k | 0 <= k < |ms|
      ensures -g.maxEvaluateValue < ChildValues(g, s, ms, d, 1)[k]
    {
      MinimaxValueBounded(g, g.play(s, ms[k]), d, -1);
    }
  }

  class Minimax<S(!new), M(==, !new)> {
    const game: Game<S, M>
    var state: S

    constructor (game: Game<S, M>, start: S)
      ensures this.game == game && state == start
    {
      this.game := game;
      state := start;
    }

    method MakeMove(m: M)
      modifies this
      ensures state == game.play(old(state), m)
    {
      state := game.play(state, m);
    }

    method UnmakeMove(m: M)
      modifies this
      ensures state == game.undo(old(state), m)
    {
      state := game.undo(state, m);
    }

    method Next()
      modifies this
      ensures state == game.next(old(state))
    {
      state := game.next(state);
    }

    method Previous()
      modifies this
      ensures state == game.previous(old(state))
    {
      state := game.previous(state);
    }

    /**
     * Scores every move of `orderedMoves` by a search `depth` plies deep and returns
     * the list sorted by `Move.compareTo`; a depth below 1 is an invalid argument.
     */
    method GetBestMoves(depth: int, orderedMoves: seq<Scored<M>>) returns (r: Result<seq<Scored<M>>>)
      requires Reversible(game) && LegalAt(game, state, orderedMoves)
      modifies this
      ensures state == old(state)
      ensures r.Failure? <==> depth <= 0
      ensures depth > 0 ==> r == Success(SortScores(RootScored(game, old(state), depth, orderedMoves)))
    {
      if depth <= 0 {
        return Failure("Search depth MUST be > 0");
      }
      var _, scored := RootMinimax(depth, orderedMoves);
      return Success(SortScores(scored));
    }

    /**
     * The root call `minimax(orderedMoves, depth, 1)`: it scans the supplied list
     * instead of the possible moves and writes each move's score into it.
     */
    method RootMinimax(depth: nat, xs: seq<Scored<M>>) returns (score: int, scored: seq<Scored<M>>)
      requires Reversible(game) && depth >= 1 && LegalAt(game, state, xs)
      modifies this
      ensures state == old(state)
      ensures score == RootValue(game, old(state), depth, xs)
      ensures scored == RootScored(game, old(state), depth, xs)
    {
      if game.isOver(state) {
        return game.evaluate(state), xs;
      }
      if |xs| == 0 {
        Next();
        score := MinimaxScore(depth, 1);
        Previous();
        return score, xs;
      }
      score, scored := RootScan(depth, xs);
    }

    /** The maximizing loop over the supplied list, which writes every move's score. */
    method RootScan(depth: nat, xs: seq<Scored<M>>) returns (score: int, scored: seq<Scored<M>>)
      requires Reversible(game) && depth >= 1 && LegalAt(game, state, xs)
      modifies this
      ensures state == old(state)
      ensures score == Best(true, -game.maxEvaluateValue, ChildValues(game, old(state), MovesOf(xs), depth - 1, 1))
      ensures |scored| == |xs|
      ensures forall k :: 0 <= k < |xs| ==> scored[k] == xs[k].(value := Some(ChildValues(game, old(state), MovesOf(xs), depth - 1, 1)[k]))
    {
      ghost var s0 := state;
      ghost var vals := ChildValues(game, s0, MovesOf(xs), depth - 1, 1);
      ghost var lo := -game.maxEvaluateValue;
      var bestScore := -game.maxEvaluateValue;
      scored := xs;
      var i := 0;
      while i < |xs|
        invariant 0 <= i <= |xs| && state == s0 && |scored| == |xs|
        invariant bestScore == Best(true, lo, vals[..i])
        invariant forall k :: 0 <= k < i ==> scored[k] == xs[k].(value := Some(vals[k]))
        invariant forall k :: i <= k < |xs| ==> scored[k] == xs[k]
      {
        var sc := ChildScore(depth, xs[i].move, 1);
        assert sc == vals[i];
        scored := scored[i := scored[i].(value := Some(sc))];
        ScanStep(true, lo, vals, i, bestScore);
        if sc > bestScore {
          bestScore := sc;
        }
        i := i + 1;
      }
      assert vals[..i] == vals;
      score := bestScore;
    }

    /** Plain minimax below the root, where nothing is written. */
    method Minimax(depth: nat, who: int) returns (score: int)
      requires Reversible(game)
      modifies this
      ensures state == old(state)
      ensures score == MinimaxValue(game, old(state), depth, who)
      decreases depth, 3
    {
      if depth == 0 || game.isOver(state) {
        return who * game.evaluate(state);
      }
      var moves := game.moves(state);
      if |moves| == 0 {
        Next();
        score := MinimaxScore(depth, who);
        Previous();
        return score;
      }
      if who > 0 {
        score := MaxScan(depth, moves, who);
      } else {
        score := MinScan(depth, moves, who);
      }
    }

    /** The maximizing loop, seeded with `-maxEvaluateValue`. */
    method MaxScan(depth: nat, moves: seq<M>, who: int) returns (score: int)
      requires Reversible(game) && depth >= 1 && who > 0 && moves == game.moves(state)
      modifies this
      ensures state == old(state)
      ensures score == Best(true, -game.maxEvaluateValue, ChildValues(game, old(state), moves, depth - 1, who))
      decreases depth, 2
    {
      ghost var s0 := state;
      ghost var vals := ChildValues(game, s0, moves, depth - 1, who);
      ghost var lo := -game.maxEvaluateValue;
      var bestScore := -game.maxEvaluateValue;
      var i := 0;
      while i < |moves|
        invariant 0 <= i <= |moves| && state == s0
        invariant bestScore == Best(true, lo, vals[..i])
      {
        var sc := ChildScore(depth, moves[i], who);
        ScanStep(true, lo, vals, i, bestScore);
        if sc > bestScore {
          bestScore := sc;
        }
        i := i + 1;
      }
      assert vals[..i] == vals;
      score := bestScore;
    }

    /** The minimizing loop, seeded with `maxEvaluateValue`. */
    method MinScan(depth: nat, moves: seq<M>, who: int) returns (score: int)
      requires Reversible(game) && depth >= 1 && who <= 0 && moves == game.moves(state)
      modifies this
      ensures state == old(state)
      ensures score == Best(false, game.maxEvaluateValue, ChildValues(game, old(state), moves, depth - 1, who))
      decreases depth, 2
    {
      ghost var s0 := state;
      ghost var vals := ChildValues(game, s0, moves, depth - 1, who);
      ghost var hi := game.maxEvaluateValue;
      var bestScore := game.maxEvaluateValue;
      var i := 0;
      while i < |moves|
        invariant 0 <= i <= |moves| && state == s0
        invariant bestScore == Best(false, hi, vals[..i])
      {
        var sc := ChildScore(depth, moves[i], who);
        ScanStep(false, hi, vals, i, bestScore);
        if sc < bestScore {
          bestScore := sc;
        }
        i := i + 1;
      }
      assert vals[..i] == vals;
      score := bestScore;
    }

    /** The child `m`, played and unplayed around the opponent's search one ply shallower. */
    method ChildScore(depth: nat, m: M, who: int) returns (score: int)
      requires Reversible(game) && depth >= 1 && m in game.moves(state)
      modifies this
      ensures state == old(state)
      ensures score == MinimaxValue(game, game.play(old(state), m), depth - 1, -who)
      decreases depth, 1
    {
      MakeMove(m);
      score := MinimaxScore(depth, who);
      UnmakeMove(m);
    }

    /** The hook `minimaxScore`: the opponent's minimax one ply shallower. */
    method MinimaxScore(depth: nat, who: int) returns (score: int)
      requires Reversible(game) && depth >= 1
      modifies this
      ensures state == old(state)
      ensures score == MinimaxValue(game, old(state), depth - 1, -who)
      decreases depth, 0
    {
      score := Minimax(depth - 1, -who);
    }
  }
}
