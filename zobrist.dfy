/**
 * fr.avianey.minimax4j.ext.ZobristHashing: a table of random 32-bit bit
 * strings, one per (piece, position), and a running hash that XORs in the bit
 * string of every piece added to or removed from a position. A Java `int` is
 * its 32-bit pattern (`bv32`); `Math.random()` becomes a draw function that
 * gives the random number used for each slot of the table.
 */
module Zobrist {

  // ---------------------------------------------------------------------
  // Folding a sequence with an associative, commutative operation
  // ---------------------------------------------------------------------

  /** `f` is associative and commutative with unit `z`. */
  ghost predicate CommutativeMonoid<T(!new)>(f: (T, T) -> T, z: T)
  {
    (forall x :: f(z, x) == x) &&
    (forall x, y :: f(x, y) == f(y, x)) &&
    (forall x, y, w :: f(f(x, y), w) == f(x, f(y, w)))
  }

  /** `s` combined by `f` from the first element to the last, starting from `z`. */
  function Fold<T>(f: (T, T) -> T, z: T, s: seq<T>): T
  {
    if s == [] then z else f(Fold(f, z, s[..|s| - 1]), s[|s| - 1])
  }

  /** Folding a concatenation combines the two folds. */
  lemma {:induction false} FoldAppend<T(!new)>(f: (T, T) -> T, z: T, a: seq<T>, b: seq<T>)
    requires CommutativeMonoid(f, z)
    ensures Fold(f, z, a + b) == f(Fold(f, z, a), Fold(f, z, b))
    decreases |b|
  {
    if b == [] {
      assert a + b == a;
    } else {
      assert (a + b)[..|a + b| - 1] == a + b[..|b| - 1];
      FoldAppend(f, z, a, b[..|b| - 1]);
    }
  }

  /** The fold is the fold without the element at `j`, combined with that element. */
  lemma {:induction false} FoldRemove<T(!new)>(f: (T, T) -> T, z: T, s: seq<T>, j: nat)
    requires CommutativeMonoid(f, z) && j < |s|
    ensures Fold(f, z, s) == f(Fold(f, z, s[..j] + s[j + 1..]), s[j])
  {
    var pre, k, post := s[..j], s[j], s[j + 1..];
    assert s == (pre + [k]) + post;
    assert (pre + [k])[..|pre|] == pre;
    FoldAppend(f, z, pre + [k], post);
    FoldAppend(f, z, pre, post);
  }

  lemma {:induction false} DropLast<T>(a: seq<T>)
    requires a != []
    ensures multiset(a[..|a| - 1]) == multiset(a) - multiset{a[|a| - 1]}
  {
    assert a == a[..|a| - 1] + [a[|a| - 1]];
  }

  /** An element of the multiset sits at some index; cutting it out takes one copy out of the multiset. */
  lemma {:induction false} CutOut<T>(b: seq<T>, k: T) returns (j: nat)
    requires k in multiset(b)
    ensures j < |b| && b[j] == k
    ensures multiset(b[..j] + b[j + 1..]) == multiset(b) - multiset{k}
  {
    j :| 0 <= j < |b| && b[j] == k;
    assert b == b[..j] + [k] + b[j + 1..];
  }

  /** The last element of `a` occurs in `b`; without it on both sides the multisets still agree. */
  lemma {:induction false} MatchLast<T>(a: seq<T>, b: seq<T>) returns (j: nat)
    requires a != [] && multiset(a) == multiset(b)
    ensures j < |b| && b[j] == a[|a| - 1]
    ensures multiset(a[..|a| - 1]) == multiset(b[..j] + b[j + 1..])
  {
    DropLast(a);
    assert a[|a| - 1] in multiset(a);
    j := CutOut(b, a[|a| - 1]);
  }

  /** The fold depends only on the multiset of elements, not on their order. */
  lemma {:induction false} FoldPermutation<T(!new)>(f: (T, T) -> T, z: T, a: seq<T>, b: seq<T>)
    requires CommutativeMonoid(f, z) && multiset(a) == multiset(b)
    ensures Fold(f, z, a) == Fold(f, z, b)
    decreases |a|
  {
    if a == [] {
      assert |b| == |multiset(b)| == 0;
    } else {
      var j := MatchLast(a, b);
      FoldPermutation(f, z, a[..|a| - 1], b[..j] + b[j + 1..]);
      FoldRemove(f, z, b, j);
    }
  }

  // ---------------------------------------------------------------------
  // The XOR of the keys
  // ---------------------------------------------------------------------

  function Xor(x: bv32, y: bv32): bv32
  {
    x ^ y
  }

  lemma XorAssociative(x: bv32, y: bv32, w: bv32)
    ensures Xor(Xor(x, y), w) == Xor(x, Xor(y, w))
  {
  }

  /** XOR on 32-bit values is associative and commutative with unit 0. */
  lemma XorMonoid()
    ensures CommutativeMonoid(Xor, 0)
  {
    forall x: bv32
      ensures Xor(0, x) == x
    {
    }
    forall x: bv32, y: bv32
      ensures Xor(x, y) == Xor(y, x)
    {
    }
    forall x: bv32, y: bv32, w: bv32
      ensures Xor(Xor(x, y), w) == Xor(x, Xor(y, w))
    {
      XorAssociative(x, y, w);
    }
  }

  /** The XOR of the keys, from the first to the last. */
  function XorKeys(keys: seq<bv32>): bv32
  {
    Fold(Xor, 0, keys)
  }

  /** XORing in one more key. */
  lemma {:induction false} XorKeysSnoc(keys: seq<bv32>, k: bv32)
    ensures XorKeys(keys + [k]) == XorKeys(keys) ^ k
  {
    assert (keys + [k])[..|keys|] == keys;
  }

  /** A hash that is the XOR of the keys, XORed with one more key, is the XOR of the longer list. */
  lemma {:induction false} XorKeysStep(h: bv32, keys: seq<bv32>, k: bv32)
    requires h == XorKeys(keys)
    ensures h ^ k == XorKeys(keys + [k])
  {
    XorKeysSnoc(keys, k);
  }

  /** A key XORed in twice, as `add` then `remove` or `add` twice, leaves no trace. */
  lemma {:induction false} XorKeysTwice(keys: seq<bv32>, k: bv32)
    ensures XorKeys(keys + [k, k]) == XorKeys(keys)
  {
    assert keys + [k, k] == (keys + [k]) + [k];
    XorKeysSnoc(keys, k);
    XorKeysSnoc(keys + [k], k);
  }

  /** The hash after a run of adds and removes depends only on the multiset of keys XORed in. */
  lemma XorKeysPermutation(a: seq<bv32>, b: seq<bv32>)
    requires multiset(a) == multiset(b)
    ensures XorKeys(a) == XorKeys(b)
  {
    XorMonoid();
    FoldPermutation(Xor, 0, a, b);
  }

  // ---------------------------------------------------------------------
  // Drawing the bit strings
  // ---------------------------------------------------------------------

  /** `Long.MAX_VALUE` converted to a double: 2^63 ((1 << 63) - 1 rounds up). */
  const LongMaxAsDouble: real := 9223372036854775808.0

  /** Rounding toward zero, as Java's casts from a double do. */
  function TruncateToZero(x: real): (n: int)
    ensures x >= 0.0 ==> n as real <= x < n as real + 1.0
    ensures x < 0.0 ==> n as real - 1.0 < x <= n as real
  {
    if x >= 0.0 then x.Floor else -((-x).Floor)
  }

  /** `n` limited to the range `[lo, hi]`. */
  function Clamp(n: int, lo: int, hi: int): int
  {
    if n < lo then lo else if n > hi then hi else n
  }

  /** Java's narrowing of a `long` to an `int`: the two's-complement pattern of the low 32 bits of `n`. */
  function Low32(n: int): bv32
  {
    if 0 <= n < 0x1_0000_0000 then n as bv32 else (n % 0x1_0000_0000) as bv32
  }

  /** A 32-bit pattern read as a number and narrowed back is itself. */
  lemma Low32RoundTrip(v: bv32)
    ensures Low32(v as int) == v
  {
  }

  /**
   * Java's `(int)` of a double: the value rounded toward zero, saturated at
   * `Integer.MAX_VALUE` and `Integer.MIN_VALUE`, and otherwise narrowed.
   */
  function IntCast(x: real): (b: bv32)
    ensures TruncateToZero(x) >= 0x7FFF_FFFF ==> b == 0x7FFF_FFFF
    ensures TruncateToZero(x) <= -0x8000_0000 ==> b == 0x8000_0000
    ensures -0x8000_0000 < TruncateToZero(x) < 0x7FFF_FFFF ==> b == Low32(TruncateToZero(x))
  {
    if x >= 2147483647.0 then 0x7FFF_FFFF
    else if x <= -2147483648.0 then 0x8000_0000
    else Low32(TruncateToZero(x))
  }

  /** Java's `(long)` of a double: the value rounded toward zero and saturated to the `long` range. */
  function LongCast(x: real): (n: int)
    ensures n == Clamp(TruncateToZero(x), -0x8000_0000_0000_0000, 0x7FFF_FFFF_FFFF_FFFF)
  {
    if x >= 9223372036854775807.0 then 9223372036854775807
    else if x <= -9223372036854775808.0 then -9223372036854775808
    else TruncateToZero(x)
  }

  /**
   * What `Math.random()` can return: `k / 2^53` for a 53-bit `k`, which is how
   * `Random.nextDouble` builds a double in [0, 1).
   */
  type Mantissa = k: int | 0 <= k < 0x20_0000_0000_0000

  function RandomDouble(k: Mantissa): (r: real)
    ensures 0.0 <= r < 1.0
  {
    k as real / 9007199254740992.0
  }

  /**
   * The bit string as the constructor computes it: `(int) (Math.random() * Long.MAX_VALUE)`.
   * The product `k * 1024` is exact (scaling by a power of two), so every draw from
   * 2^-32 up saturates to `Integer.MAX_VALUE`, and the others give `k * 1024`.
   */
  function SaturatedBitString(k: Mantissa): (b: bv32)
    ensures k >= 0x20_0000 ==> b == 0x7FFF_FFFF
    ensures k < 0x20_0000 ==> b == Low32(k * 1024)
  {
    assert RandomDouble(k) * LongMaxAsDouble == (k * 1024) as real;
    IntCast(RandomDouble(k) * LongMaxAsDouble)
  }

  /**
   * As written, any two pieces or positions whose draws are at least 2^-32 (all
   * but a 2^-32 share of the draws) get the same key 0x7FFFFFFF, so adding both
   * leaves the hash of the empty board.
   */
  lemma {:induction false} SaturatedKeysCancel(k: Mantissa, l: Mantissa)
    requires k >= 0x20_0000 && l >= 0x20_0000
    ensures SaturatedBitString(k) == SaturatedBitString(l)
    ensures XorKeys([SaturatedBitString(k), SaturatedBitString(l)]) == XorKeys([])
  {
    XorKeysTwice([], SaturatedBitString(k));
    assert [] + [SaturatedBitString(k), SaturatedBitString(k)] == [SaturatedBitString(k), SaturatedBitString(l)];
  }

  /** Narrowing only sees a number modulo 2^32. */
  lemma Low32Mod(m: int, n: int)
    requires m % 0x1_0000_0000 == n % 0x1_0000_0000
    ensures Low32(m) == Low32(n)
  {
  }

  /**
   * The cast through `long` that keeps the low 32 bits,
   * `(int) (long) (Math.random() * Long.MAX_VALUE)`: only the low 22 bits of the
   * draw count, shifted up by 10, so the low 10 bits of the key are always clear.
   */
  function LongBitString(k: Mantissa): (b: bv32)
    ensures b == Low32((k % 0x40_0000) * 1024)
  {
    assert RandomDouble(k) * LongMaxAsDouble == (k * 1024) as real;
    assert k * 1024 == (k / 0x40_0000) * 0x1_0000_0000 + (k % 0x40_0000) * 1024;
    Low32Mod(k * 1024, (k % 0x40_0000) * 1024);
    Low32(LongCast(RandomDouble(k) * LongMaxAsDouble))
  }

  /**
   * Through `long`, the keys that can be drawn are exactly the patterns of the
   * 2^22 multiples of 1024 below 2^32, those with the low 10 bits clear.
   */
  lemma LongBitStringKeys(v: bv32)
    ensures (exists k: Mantissa :: LongBitString(k) == v) <==>
            (exists j :: 0 <= j < 0x40_0000 && v == Low32(j * 1024))
  {
    if j :| 0 <= j < 0x40_0000 && v == Low32(j * 1024) {
      var k: Mantissa := j;
      assert k % 0x40_0000 == j;
      assert LongBitString(k) == v;
    }
    forall k: Mantissa | LongBitString(k) == v
      ensures exists j :: 0 <= j < 0x40_0000 && v == Low32(j * 1024)
    {
      var j := k % 0x40_0000;
      assert v == Low32(j * 1024);
    }
  }

  /** A draw scaled by 2^32 and rounded toward zero is `k / 2^21`. */
  lemma ScaledBy32Bits(k: Mantissa)
    ensures TruncateToZero(RandomDouble(k) * 4294967296.0) == k / 0x20_0000
  {
    var q, r := k / 0x20_0000, k % 0x20_0000;
    assert k == q * 0x20_0000 + r;
    assert RandomDouble(k) * 4294967296.0 == q as real + r as real / 2097152.0;
  }

  /**
   * The corrected bit string, `(int) (long) (Math.random() * 4294967296.0)`: the
   * top 32 bits of the 53-bit draw.
   */
  function UniformBitString(k: Mantissa): (b: bv32)
    ensures b == Low32(k / 0x20_0000)
  {
    ScaledBy32Bits(k);
    Low32(LongCast(RandomDouble(k) * 4294967296.0))
  }

  /** Corrected, every 32-bit value is the bit string of some draw. */
  lemma UniformBitStringCoversAll(v: bv32)
    ensures exists k: Mantissa :: UniformBitString(k) == v
  {
    var k: Mantissa := v as int * 0x20_0000;
    assert k / 0x20_0000 == v as int;
    Low32RoundTrip(v);
    assert UniformBitString(k) == v;
  }

  /** A fresh `pieces` by `positions` table whose entry at row `i` and column `j` is `key(i, j)`. */
  method FillTable(pieces: nat, positions: nat, key: (nat, nat) -> bv32) returns (table: array2<bv32>)
    ensures fresh(table)
    ensures table.Length0 == pieces && table.Length1 == positions
    ensures forall i, j :: 0 <= i < pieces && 0 <= j < positions ==> table[i, j] == key(i, j)
  {
    table := new bv32[pieces, positions];
    var i := 0;
    while i < pieces
      invariant 0 <= i <= pieces
      invariant forall r, c :: 0 <= r < i && 0 <= c < positions ==> table[r, c] == key(r, c)
    {
      var j := 0;
      while j < positions
        invariant 0 <= j <= positions
        invariant forall r, c :: 0 <= r < i && 0 <= c < positions ==> table[r, c] == key(r, c)
        invariant forall c :: 0 <= c < j ==> table[i, c] == key(i, c)
      {
        table[i, j] := key(i, j);
        j := j + 1;
      }
      i := i + 1;
    }
  }

  // ---------------------------------------------------------------------
  // The hashing object
  // ---------------------------------------------------------------------

  class ZobristHashing {
    /** The current hash. */
    var hash: bv32
    /** One bit string per piece and position, fixed once drawn. */
    const bitStrings: array2<bv32>
    /** The bit strings XORed into `hash` since it was last 0, in order. */
    ghost var keys: seq<bv32>

    /** `hash` is the XOR of the keys added or removed so far. */
    ghost predicate Valid()
      reads this
    {
      hash == XorKeys(keys)
    }

    /** Fills the `pieces` by `positions` table from the draws, row by row, and starts from hash 0. */
    constructor (pieces: nat, positions: nat, draw: (nat, nat) -> Mantissa)
      ensures fresh(bitStrings)
      ensures bitStrings.Length0 == pieces && bitStrings.Length1 == positions
      ensures forall i, j :: 0 <= i < pieces && 0 <= j < positions ==> bitStrings[i, j] == SaturatedBitString(draw(i, j))
      ensures hash == 0 && keys == [] && Valid()
    {
      var table := FillTable(pieces, positions, (i: nat, j: nat) => SaturatedBitString(draw(i, j)));
      bitStrings := table;
      hash := 0;
      keys := [];
    }

    /** The same table with the corrected bit strings, under which every 32-bit key can be drawn. */
    constructor Corrected(pieces: nat, positions: nat, draw: (nat, nat) -> Mantissa)
      ensures fresh(bitStrings)
      ensures bitStrings.Length0 == pieces && bitStrings.Length1 == positions
      ensures forall i, j :: 0 <= i < pieces && 0 <= j < positions ==> bitStrings[i, j] == UniformBitString(draw(i, j))
      ensures hash == 0 && keys == [] && Valid()
    {
      var table := FillTable(pieces, positions, (i: nat, j: nat) => UniformBitString(draw(i, j)));
      bitStrings := table;
      hash := 0;
      keys := [];
    }

    /** reset: back to the hash of an empty board. */
    method Reset()
      modifies this
      ensures hash == 0 && keys == [] && Valid()
    {
      hash := 0;
      keys := [];
    }

    /** add: XORs in the bit string of the piece at the position and returns the new hash. */
    method Add(piece: nat, position: nat) returns (h: bv32)
      requires piece < bitStrings.Length0 && position < bitStrings.Length1
      requires Valid()
      modifies this
      ensures hash == old(hash) ^ bitStrings[piece, position] && h == hash
      ensures keys == old(keys) + [bitStrings[piece, position]] && Valid()
    {
      var k := bitStrings[piece, position];
      var h0 := hash;
      ghost var ks := keys;
      XorKeysStep(h0, ks, k);
      h := h0 ^ k;
      hash, keys := h, ks + [k];
    }

    /** remove: the same XOR as `add`, which undoes it. */
    method Remove(piece: nat, position: nat) returns (h: bv32)
      requires piece < bitStrings.Length0 && position < bitStrings.Length1
      requires Valid()
      modifies this
      ensures hash == old(hash) ^ bitStrings[piece, position] && h == hash
      ensures keys == old(keys) + [bitStrings[piece, position]] && Valid()
    {
      h := Add(piece, position);
    }

    /** hashCode: the current hash, read without changing anything. */
    function HashCode(): (h: bv32)
      reads this
      requires Valid()
      ensures h == XorKeys(keys)
    {
      hash
    }
  }
}
