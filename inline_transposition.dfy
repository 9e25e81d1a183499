/**
 * The older caching engines `TranspositionTableBackedIA` and `TranspositionIA`,
 * which write the table lookups into the search loops themselves instead of
 * going through score hooks. After each `makeMove` the child position is looked
 * up; a hit takes the stored entry, a miss searches the child and stores its
 * score before `unmakeMove`. A node without moves searches the same position one
 * ply shallower for the other side, without `next`/`previous` and without the
 * table.
 *
 * The two engines differ in two places. `TranspositionTableBackedIA` stores under
 * the position's own key only, and its minimizing branches store the negated
 * score; `TranspositionIA` stores under every symmetric key, and its minimizing
 * branches of minimax and alpha-beta store the score as it is while still
 * reading back the negated entry.
 */
module InlineTransposition {
  import opened Wrappers
  import opened Games
  import opened Search
  import opened TranspositionTables
  import opened Transposition

  class TranspositionIA<S(!new), M(!new), K(==, !new)> {
    const algo: Algorithm
    const game: Game<S, M>
    const grouping: Grouping<S>
    const transposition: S -> K
    const symmetric: S -> seq<K>
    /** Whether a minimizing branch of minimax and alpha-beta stores the negated score. */
    const negateMinStore: bool
    const clearBefore: bool
    const clearAfter: bool
    const cache: TranspositionTable<K>
    var state: S

    /** `TranspositionIA` as written: symmetric writes, and the minimizing branches store the score unnegated. */
    constructor (algo: Algorithm, game: Game<S, M>, start: S, grouping: Grouping<S>,
                 transposition: S -> K, symmetric: S -> seq<K>, clearBefore: bool, clearAfter: bool)
      ensures this.algo == algo && this.game == game && state == start && this.grouping == grouping
      ensures this.transposition == transposition && this.symmetric == symmetric && !negateMinStore
      ensures this.clearBefore == clearBefore && this.clearAfter == clearAfter
      ensures fresh(cache) && cache.tables == map[]
    {
      this.algo := algo;
      this.game := game;
      state := start;
      this.grouping := grouping;
      this.transposition := transposition;
      this.symmetric := symmetric;
      negateMinStore := false;
      this.clearBefore := clearBefore;
      this.clearAfter := clearAfter;
      cache := new TranspositionTable();
    }

    /** `TranspositionIA` with the minimizing branches storing the negated score, as their hits expect. */
    constructor Corrected(algo: Algorithm, game: Game<S, M>, start: S, grouping: Grouping<S>,
                          transposition: S -> K, symmetric: S -> seq<K>, clearBefore: bool, clearAfter: bool)
      ensures this.algo == algo && this.game == game && state == start && this.grouping == grouping
      ensures this.transposition == transposition && this.symmetric == symmetric && negateMinStore
      ensures this.clearBefore == clearBefore && this.clearAfter == clearAfter
      ensures fresh(cache) && cache.tables == map[]
    {
      this.algo := algo;
      this.game := game;
      state := start;
      this.grouping := grouping;
      this.transposition := transposition;
      this.symmetric := symmetric;
      negateMinStore := true;
      this.clearBefore := clearBefore;
      this.clearAfter := clearAfter;
      cache := new TranspositionTable();
    }

    /** `TranspositionTableBackedIA`: one key per position, and negated entries in the minimizing branches. */
    constructor TableBacked(algo: Algorithm, game: Game<S, M>, start: S, grouping: Grouping<S>,
                            transposition: S -> K, clearBefore: bool, clearAfter: bool)
      ensures this.algo == algo && this.game == game && state == start && this.grouping == grouping
      ensures this.transposition == transposition && negateMinStore
      ensures forall s :: this.symmetric(s) == [transposition(s)]
      ensures this.clearBefore == clearBefore && this.clearAfter == clearAfter
      ensures fresh(cache) && cache.tables == map[]
    {
      this.algo := algo;
      this.game := game;
      state := start;
      this.grouping := grouping;
      this.transposition := transposition;
      symmetric := s => [transposition(s)];
      negateMinStore := true;
      this.clearBefore := clearBefore;
      this.clearAfter := clearAfter;
      cache := new TranspositionTable();
    }

    method MakeMove(m: M)
      modifies this
      ensures state == game.play(old(state), m)
    {
      state := game.play(state, m);
    }

    method UnmakeMove(m: M)
      modifies this
      ensures state == game.undo(old(state), m)
    {
      state := game.undo(state, m);
    }

    method ClearGroups()
      modifies cache
      ensures cache.tables == if CurrentGroup(grouping, state).Some?
                              then Evict(old(cache.tables), CurrentGroup(grouping, state).value)
                              else old(cache.tables)
    {
      cache.ClearGroups(CurrentGroup(grouping, state));
    }

    method ClearTranspositionTable()
      modifies cache
      ensures cache.tables == map[]
    {
      cache.Clear();
    }

    /** The sign a minimizing branch of minimax or alpha-beta stores its score with. */
    function MinStoreSign(): int {
      if negateMinStore then -1 else 1
    }

    method GetBestMove(depth: int) returns (r: Result<Option<M>>)
      requires Reversible(game)
      modifies this, cache
      ensures state == old(state)
      ensures r.Failure? <==> depth <= 0
      ensures r.Success? && r.value.Some? ==> r.value.value in game.moves(old(state))
      ensures clearAfter && depth > 0 && CurrentGroup(grouping, state).Some? ==>
              forall h :: h in cache.tables ==> CurrentGroup(grouping, state).value <= h
      ensures !clearBefore && !clearAfter ==> Extends(old(cache.tables), cache.tables)
      ensures depth > 0 ==> Extends(if (clearBefore || clearAfter) && CurrentGroup(grouping, state).Some?
                                    then Evict(old(cache.tables), CurrentGroup(grouping, state).value)
                                    else old(cache.tables), cache.tables)
      ensures depth <= 0 ==> cache.tables == if clearBefore && CurrentGroup(grouping, state).Some?
                                             then Evict(old(cache.tables), CurrentGroup(grouping, state).value)
                                             else old(cache.tables)
    {
      ghost var t0 := cache.tables;
      if clearBefore {
        ClearGroups();
      }
      if depth <= 0 {
        return Failure("Search depth MUST be > 0");
      }
      ghost var t1 := cache.tables;
      var best: Option<M>;
      match algo {
        case MINIMAX => var _, b := Minimax(depth, 1); best := b;
        case ALPHA_BETA => var _, b := AlphaBeta(depth, 1, -game.maxEvaluateValue, game.maxEvaluateValue); best := b;
        case NEGAMAX => var _, b := Negamax(depth, -game.maxEvaluateValue, game.maxEvaluateValue); best := b;
        case NEGASCOUT => var _, b := Negascout(depth, -game.maxEvaluateValue, game.maxEvaluateValue); best := b;
      }
      ghost var t2 := cache.tables;
      if clearAfter {
        ClearGroups();
      }
      if clearAfter && CurrentGroup(grouping, state).Some? {
        ghost var g := CurrentGroup(grouping, state).value;
        EvictMonotone(t1, t2, g);
        if clearBefore {
          EvictTwice(t0, g);
        }
      }
      return Success(best);
    }

    /**
     * Stores `v` for the current position, whose group's table was `present`
     * when it was looked up.
     */
    method Save(present: bool, v: int)
      requires present ==> GroupKey(grouping, state) in cache.tables
      modifies cache
      ensures cache.tables == old(cache.tables)[GroupKey(grouping, state) :=
                PutAll(if present then old(cache.tables)[GroupKey(grouping, state)] else map[], symmetric(state), v)]
    {
      cache.Save(present, GroupKey(grouping, state), symmetric(state), v);
    }

    method Minimax(depth: nat, who: int) returns (score: int, best: Option<M>)
      requires Reversible(game)
      modifies this, cache
      ensures state == old(state)
      ensures Extends(old(cache.tables), cache.tables)
      ensures best.Some? ==> best.value in game.moves(old(state))
      decreases depth, 1
    {
      if depth == 0 || game.isOver(state) {
        return who * game.evaluate(state), None;
      }
      var moves := game.moves(state);
      if |moves| == 0 {
        var r, _ := Minimax(depth - 1, -who);
        score := r;
        return score, None;
      }
      ghost var s0 := state;
      ghost var t0 := cache.tables;
      var maximizing := who > 0;
      var bestScore := if maximizing then -game.maxEvaluateValue else game.maxEvaluateValue;
      best := None;
      var i := 0;
      while i < |moves|
        invariant 0 <= i <= |moves| && state == s0
        invariant Extends(t0, cache.tables)
        invariant best.Some? ==> best.value in moves
      {
        MakeMove(moves[i]);
        var sc := MinimaxChild(depth, who);
        UnmakeMove(moves[i]);
        if (maximizing && sc > bestScore) || (!maximizing && sc < bestScore) {
          bestScore := sc;
          best := Some(moves[i]);
        }
        i := i + 1;
      }
      score := bestScore;
    }

    /**
     * The cached child of a minimax node for `who`: a maximizing node reads and
     * stores entries as they are; a minimizing node reads the negated entry and
     * stores with `MinStoreSign()`.
     */
    method MinimaxChild(depth: nat, who: int) returns (score: int)
      requires Reversible(game) && depth >= 1
      modifies this, cache
      ensures state == old(state)
      ensures Extends(old(cache.tables), cache.tables)
      ensures CachedAs(old(cache.tables), cache.tables, old(state), ReadSign(who), StoreSign(who), score)
      decreases depth, 0
    {
      var g := GroupKey(grouping, state);
      var t := transposition(state);
      var present := g in cache.tables;
      if present && t in cache.tables[g] {
        score := ReadSign(who) * cache.tables[g][t];
      } else {
        ghost var fetched := cache.tables;
        var r, _ := Minimax(depth - 1, -who);
        score := r;
        Save(present, StoreSign(who) * score);
        SaveExtends(fetched, fetched, old(cache.tables), present, g, symmetric(state), StoreSign(who) * score);
      }
    }

    method AlphaBeta(depth: nat, who: int, alpha: int, beta: int) returns (score: int, best: Option<M>)
      requires Reversible(game)
      modifies this, cache
      ensures state == old(state)
      ensures Extends(old(cache.tables), cache.tables)
      ensures Inner(game, old(state), depth) ==> if who > 0 then alpha <= score else score <= beta
      ensures best.Some? ==> best.value in game.moves(old(state))
      decreases depth, 1
    {
      if depth == 0 || game.isOver(state) {
        return who * game.evaluate(state), None;
      }
      var moves := game.moves(state);
      if |moves| == 0 {
        var r, _ := AlphaBeta(depth - 1, -who, alpha, beta);
        score := r;
        return score, None;
      }
      ghost var s0 := state;
      ghost var t0 := cache.tables;
      best := None;
      var a, b := alpha, beta;
      var i := 0;
      while i < |moves|
        invariant 0 <= i <= |moves| && state == s0
        invariant Extends(t0, cache.tables)
        invariant best.Some? ==> best.value in moves
        invariant alpha <= a && b <= beta
        invariant if who > 0 then b == beta else a == alpha
      {
        MakeMove(moves[i]);
        var sc := AlphaBetaChild(depth, who, a, b);
        UnmakeMove(moves[i]);
        if who > 0 {
          if sc > a {
            a := sc;
            best := Some(moves[i]);
            if a >= b {
              break;
            }
          }
        } else {
          if sc < b {
            b := sc;
            best := Some(moves[i]);
            if a >= b {
              break;
            }
          }
        }
        i := i + 1;
      }
      score := if who > 0 then a else b;
    }

    /** The cached child of an alpha-beta node, with the same signs as `MinimaxChild`. */
    method AlphaBetaChild(depth: nat, who: int, alpha: int, beta: int) returns (score: int)
      requires Reversible(game) && depth >= 1
      modifies this, cache
      ensures state == old(state)
      ensures Extends(old(cache.tables), cache.tables)
      ensures CachedAs(old(cache.tables), cache.tables, old(state), ReadSign(who), StoreSign(who), score)
      decreases depth, 0
    {
      var g := GroupKey(grouping, state);
      var t := transposition(state);
      var present := g in cache.tables;
      if present && t in cache.tables[g] {
        score := ReadSign(who) * cache.tables[g][t];
      } else {
        ghost var fetched := cache.tables;
        var r, _ := AlphaBeta(depth - 1, -who, alpha, beta);
        score := r;
        Save(present, StoreSign(who) * score);
        SaveExtends(fetched, fetched, old(cache.tables), present, g, symmetric(state), StoreSign(who) * score);
      }
    }

    method Negamax(depth: nat, alpha: int, beta: int) returns (score: int, best: Option<M>)
      requires Reversible(game)
      modifies this, cache
      ensures state == old(state)
      ensures Extends(old(cache.tables), cache.tables)
      ensures Inner(game, old(state), depth) ==> alpha <= score
      ensures best.Some? ==> best.value in game.moves(old(state))
      decreases depth, 1
    {
      if depth == 0 || game.isOver(state) {
        return game.evaluate(state), None;
      }
      var moves := game.moves(state);
      if |moves| == 0 {
        var r, _ := Negamax(depth - 1, -beta, -alpha);
        return -r, None;
      }
      ghost var s0 := state;
      ghost var t0 := cache.tables;
      best := None;
      var a := alpha;
      var i := 0;
      while i < |moves|
        invariant 0 <= i <= |moves| && state == s0
        invariant Extends(t0, cache.tables)
        invariant best.Some? ==> best.value in moves
        invariant alpha <= a
      {
        MakeMove(moves[i]);
        var sc := NegamaxChild(depth, a, beta);
        UnmakeMove(moves[i]);
        if sc > a {
          a := sc;
          best := Some(moves[i]);
          if a >= beta {
            break;
          }
        }
        i := i + 1;
      }
      score := a;
    }

    /** The cached child of a negamax node: the negated child search, stored and read as it is. */
    method NegamaxChild(depth: nat, alpha: int, beta: int) returns (score: int)
      requires Reversible(game) && depth >= 1
      modifies this, cache
      ensures state == old(state)
      ensures Extends(old(cache.tables), cache.tables)
      ensures CachedAs(old(cache.tables), cache.tables, old(state), 1, 1, score)
      decreases depth, 0
    {
      var g := GroupKey(grouping, state);
      var t := transposition(state);
      var present := g in cache.tables;
      if present && t in cache.tables[g] {
        score := cache.tables[g][t];
      } else {
        ghost var fetched := cache.tables;
        var r, _ := Negamax(depth - 1, -beta, -alpha);
        score := -r;
        Save(present, score);
        SaveExtends(fetched, fetched, old(cache.tables), present, g, symmetric(state), score);
      }
    }

    method Negascout(depth: nat, alpha: int, beta: int) returns (score: int, best: Option<M>)
      requires Reversible(game)
      modifies this, cache
      ensures state == old(state)
      ensures Extends(old(cache.tables), cache.tables)
      ensures Inner(game, old(state), depth) ==> alpha <= score
      ensures best.Some? ==> best.value in game.moves(old(state))
      decreases depth, 1
    {
      if depth == 0 || game.isOver(state) {
        return game.evaluate(state), None;
      }
      var moves := game.moves(state);
      var b := beta;
      if |moves| == 0 {
        var r, _ := Negascout(depth - 1, -beta, -alpha);
        return -r, None;
      }
      ghost var s0 := state;
      ghost var t0 := cache.tables;
      best := None;
      var a := alpha;
      var first := true;
      var i := 0;
      while i < |moves|
        invariant 0 <= i <= |moves| && state == s0
        invariant Extends(t0, cache.tables)
        invariant best.Some? ==> best.value in moves
        invariant alpha <= a
      {
        MakeMove(moves[i]);
        var sc := NegascoutChild(first, depth, a, beta, b);
        UnmakeMove(moves[i]);
        if sc > a {
          a := sc;
          best := Some(moves[i]);
          if a >= beta {
            break;
          }
        }
        b := a + 1;
        first := false;
        i := i + 1;
      }
      score := a;
    }

    /**
     * The cached child of a negascout node. Only a miss probes: with the window
     * up to `b`, and again with the full window when a later child's probe lands
     * strictly inside `(alpha, beta)`.
     */
    method NegascoutChild(first: bool, depth: nat, alpha: int, beta: int, b: int) returns (score: int)
      requires Reversible(game) && depth >= 1
      modifies this, cache
      ensures state == old(state)
      ensures Extends(old(cache.tables), cache.tables)
      ensures CachedAs(old(cache.tables), cache.tables, old(state), 1, 1, score)
      decreases depth, 0
    {
      var g := GroupKey(grouping, state);
      var t := transposition(state);
      var present := g in cache.tables;
      if present && t in cache.tables[g] {
        score := cache.tables[g][t];
      } else {
        ghost var fetched := cache.tables;
        var r, _ := Negascout(depth - 1, -b, -alpha);
        score := -r;
        if !first && alpha < score && score < beta {
          ghost var mid := cache.tables;
          var r2, _ := Negascout(depth - 1, -beta, -alpha);
          score := -r2;
          ExtendsTransitive(fetched, mid, cache.tables);
        }
        Save(present, score);
        SaveExtends(fetched, fetched, old(cache.tables), present, g, symmetric(state), score);
      }
    }

    /** The sign a hit of a minimax or alpha-beta node for `who` applies to the entry. */
    function ReadSign(who: int): int {
      if who > 0 then 1 else -1
    }

    /** The sign a miss of a minimax or alpha-beta node for `who` stores the score with. */
    function StoreSign(who: int): int {
      if who > 0 then 1 else MinStoreSign()
    }

    /**
     * What an inline lookup promises about the child position `s`: on a hit the
     * score is `read` times the entry and nothing is written; on a miss every
     * symmetric key of `s` holds `store` times the score.
     */
    ghost predicate CachedAs(before: map<int, map<K, int>>, after: map<int, map<K, int>>, s: S, read: int, store: int, score: int) {
      var g := GroupKey(grouping, s);
      match Stored(before, g, transposition(s))
      case Some(v) => score == read * v && after == before
      case None => forall k :: k in symmetric(s) ==> Stored(after, g, k) == Some(store * score)
    }

    /**
     * A position first searched by a minimizing node (a miss that stores `first`)
     * and met again by a minimizing node before the tables change reads back
     * `-MinStoreSign() * first`: the searched score itself only when the
     * minimizing branches store negated entries.
     */
    lemma {:induction false} MinRevisit(t0: map<int, map<K, int>>, t1: map<int, map<K, int>>, s: S, who: int, first: int, again: int)
      requires who <= 0 && transposition(s) in symmetric(s)
      requires Stored(t0, GroupKey(grouping, s), transposition(s)).None?
      requires CachedAs(t0, t1, s, ReadSign(who), StoreSign(who), first)
      requires CachedAs(t1, t1, s, ReadSign(who), StoreSign(who), again)
      ensures again == -MinStoreSign() * first
      ensures again == first <==> negateMinStore || first == 0
    {
      assert Stored(t1, GroupKey(grouping, s), transposition(s)) == Some(MinStoreSign() * first);
    }
  }
}
