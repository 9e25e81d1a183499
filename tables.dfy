/**
 * The transposition table map shared by the caching engines: an ordered group
 * key maps to a table from position keys to stored scores. A group's table is
 * created on the first store into it, a store writes the same score under all
 * the keys a position is known by, groups below the current one can be evicted
 * in bulk, and the whole map can be cleared. Entries are bare scores, with no
 * depth and no bound type.
 */
module TranspositionTables {
  import opened Wrappers

  /**
   * How positions are split into groups: by an ordered integer group key, or all
   * in one bucket (the `Void` group type, whose comparator finds every key equal).
   */
  datatype Grouping<!S> = Ordered(groupOf: S -> int) | Ungrouped

  /** The map key a position's table is filed under: the group the position reports, or key 0 for the single bucket. */
  function GroupKey<S>(grouping: Grouping<S>, s: S): (r: int)
    ensures r == if CurrentGroup(grouping, s).Some? then CurrentGroup(grouping, s).value else 0
  {
    match grouping
    case Ordered(groupOf) => groupOf(s)
    case Ungrouped => 0
  }

  /** The group `getGroup()` reports: none for the `Void` group. */
  function CurrentGroup<S>(grouping: Grouping<S>, s: S): Option<int> {
    match grouping
    case Ordered(groupOf) => Some(groupOf(s))
    case Ungrouped => None
  }

  /** Writes `v` under every key of `ks`, in order. */
  function PutAll<K(!new)>(t: map<K, int>, ks: seq<K>, v: int): (r: map<K, int>)
    ensures forall k :: k in r <==> k in t || k in ks
    ensures forall k :: k in r ==> r[k] == if k in ks then v else t[k]
    decreases |ks|
  {
    if |ks| == 0 then t else PutAll(t, ks[..|ks| - 1], v)[ks[|ks| - 1] := v]
  }

  /** The groups that `headMap(g).clear()` leaves: those not below `g`. */
  function Evict<K>(tables: map<int, map<K, int>>, g: int): (r: map<int, map<K, int>>)
    ensures forall h :: h in r <==> h in tables && g <= h
    ensures forall h :: h in r ==> r[h] == tables[h]
  {
    map h | h in tables && g <= h :: tables[h]
  }

  /** The score stored for key `t` in group `g`, if there is one. */
  function Stored<K>(tables: map<int, map<K, int>>, g: int, t: K): (r: Option<int>)
    ensures r.Some? <==> g in tables && t in tables[g]
    ensures r.Some? ==> r.value == tables[g][t]
  {
    if g in tables && t in tables[g] then Some(tables[g][t]) else None
  }

  /** The pairs (group, key) that have a stored score. */
  ghost function Entries<K(!new)>(tables: map<int, map<K, int>>): (r: set<(int, K)>)
    ensures forall g, t :: (g, t) in r <==> Stored(tables, g, t).Some?
  {
    set g, t | g in tables && t in tables[g] :: (g, t)
  }

  /** Every group of `before` is still present in `after`, and so is every stored key. */
  ghost predicate Extends<K(!new)>(before: map<int, map<K, int>>, after: map<int, map<K, int>>) {
    before.Keys <= after.Keys && Entries(before) <= Entries(after)
  }

  lemma ExtendsTransitive<K(!new)>(a: map<int, map<K, int>>, b: map<int, map<K, int>>, c: map<int, map<K, int>>)
    requires Extends(a, b) && Extends(b, c)
    ensures Extends(a, c)
  {
  }

  /** A hit stays a hit, with the same key, as long as the tables only extend. */
  lemma {:induction false} StoredPersists<K(!new)>(a: map<int, map<K, int>>, b: map<int, map<K, int>>, g: int, t: K)
    requires Extends(a, b) && Stored(a, g, t).Some?
    ensures Stored(b, g, t).Some?
  {
    assert (g, t) in Entries(a);
  }

  /**
   * Evicting after growth keeps everything evicting before it would have kept:
   * `headMap(g).clear()` never drops a group at or above `g`, nor a key in one.
   */
  lemma {:induction false} EvictMonotone<K(!new)>(a: map<int, map<K, int>>, b: map<int, map<K, int>>, g: int)
    requires Extends(a, b)
    ensures Extends(Evict(a, g), Evict(b, g))
  {
    forall e | e in Entries(Evict(a, g))
      ensures e in Entries(Evict(b, g))
    {
      assert e in Entries(a);
    }
  }

  /** Evicting twice below the same group is evicting once. */
  lemma EvictTwice<K>(a: map<int, map<K, int>>, g: int)
    ensures Evict(Evict(a, g), g) == Evict(a, g)
  {
  }

  class TranspositionTable<K(==, !new)> {
    var tables: map<int, map<K, int>>

    constructor ()
      ensures tables == map[]
    {
      tables := map[];
    }

    /**
     * Saves `score` under every key of `keys` in group `g`. The caller fetched the
     * group's table before searching the child: when it was absent (`present` is
     * false) a new table is created and filed under `g`, replacing any table filed
     * there in the meantime; otherwise the keys go into the table it fetched.
     */
    method Save(present: bool, g: int, keys: seq<K>, score: int)
      requires present ==> g in tables
      modifies this
      ensures tables == old(tables)[g := PutAll(if present then old(tables)[g] else map[], keys, score)]
    {
      var t: map<K, int> := if present then tables[g] else map[];
      var i := 0;
      while i < |keys|
        invariant 0 <= i <= |keys|
        invariant t == PutAll(if present then tables[g] else map[], keys[..i], score)
      {
        assert keys[..i + 1][..i] == keys[..i];
        t := t[keys[i] := score];
        i := i + 1;
      }
      assert keys[..i] == keys;
      tables := tables[g := t];
    }

    /** Evicts every group strictly below `current`; no group (`null`) evicts nothing. */
    method ClearGroups(current: Option<int>)
      modifies this
      ensures tables == if current.Some? then Evict(old(tables), current.value) else old(tables)
    {
      if current.Some? {
        tables := Evict(tables, current.value);
      }
    }

    method Clear()
      modifies this
      ensures tables == map[]
    {
      tables := map[];
    }
  }

  /** What a save does to the tables as seen by a search that started before the fetch. */
  lemma SaveExtends<K(!new)>(start: map<int, map<K, int>>, fetched: map<int, map<K, int>>, now: map<int, map<K, int>>,
                             present: bool, g: int, keys: seq<K>, score: int)
    requires Extends(start, fetched) && Extends(fetched, now)
    requires present == (g in fetched)
    ensures Extends(fetched, now[g := PutAll(if present then now[g] else map[], keys, score)])
    ensures Extends(start, now[g := PutAll(if present then now[g] else map[], keys, score)])
  {
  }

  /** After a save every written key reads back the saved score. */
  lemma SaveReadsBack<K(!new)>(tables: map<int, map<K, int>>, present: bool, g: int, keys: seq<K>, score: int, k: K)
    requires present ==> g in tables
    requires k in keys
    ensures Stored(tables[g := PutAll(if present then tables[g] else map[], keys, score)], g, k) == Some(score)
  {
  }
}
