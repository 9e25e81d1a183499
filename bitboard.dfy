/**
 * Hamming weight of 64-bit and 32-bit two's-complement integers, in the two
 * styles of fr.avianey.minimax4j.ext.Bitboard: a branch-free SWAR expression
 * and a loop that clears the lowest set bit until nothing is left. A Java
 * `long` is its 64-bit pattern (`bv64`), an `int` its 32-bit pattern (`bv32`),
 * and `>>>` is the logical shift `>>` of bit-vectors.
 */
module Bitboard {

  // ---------------------------------------------------------------------
  // Specification: the number of 1 bits
  // ---------------------------------------------------------------------

  /** 1 when the lowest bit of `x` is set, else 0. */
  function Bit(x: bv64): (b: nat)
    ensures b <= 1
  {
    if x & 1 == 1 then 1 else 0
  }

  /** The number of 1 bits of a 64-bit value, lowest bit first. */
  function Ones(x: bv64): nat
    decreases x
  {
    if x == 0 then 0 else Bit(x) + Ones(x >> 1)
  }

  /** The number of 1 bits of a 64-bit value. */
  function PopCount64(x: bv64): nat
  {
    Ones(x)
  }

  /** The number of 1 bits of a 32-bit value: those of its zero extension. */
  function PopCount32(x: bv32): nat
  {
    Ones(x as bv64)
  }

  /** Counting peels off the lowest bit; `rest` names `x >> 1`. */
  lemma {:induction false} OnesShift(x: bv64, rest: bv64)
    requires x >> 1 == rest
    ensures Ones(x) == Bit(x) + Ones(rest)
  {
  }

  // ---------------------------------------------------------------------
  // numberOfSetBits64_2 and numberOfSetBits32_2: clearing the lowest set bit
  // ---------------------------------------------------------------------

  /** The bit-level facts behind `x & (x - 1)`. */
  lemma {:induction false} ClearStep(x: bv64)
    requires x != 0
    ensures x & 1 == 1 ==> (x & (x - 1)) & 1 == 0 && (x & (x - 1)) >> 1 == x >> 1
    ensures x & 1 == 0 ==> (x & (x - 1)) & 1 == 0 && (x & (x - 1)) >> 1 == (x >> 1) & ((x >> 1) - 1)
  {
  }

  lemma {:induction false} HalfSmaller(x: bv64)
    requires x != 0 && x & 1 == 0
    ensures x >> 1 != 0 && x >> 1 < x
  {
  }

  /** `x & (x - 1)` clears exactly one set bit: the lowest. */
  lemma {:induction false} ClearLowest(x: bv64)
    requires x != 0
    ensures Ones(x & (x - 1)) == Ones(x) - 1
    decreases x
  {
    if x & 1 == 1 {
      ClearLowestOdd(x);
    } else {
      HalfSmaller(x);
      var y := x >> 1;
      ClearLowest(y);
      ClearLowestEven(x, y);
    }
  }

  lemma {:induction false} ClearLowestOdd(x: bv64)
    requires x & 1 == 1
    ensures Ones(x & (x - 1)) == Ones(x) - 1
  {
    ClearStep(x);
    OnesShift(x & (x - 1), x >> 1);
    OnesShift(x, x >> 1);
  }

  lemma {:induction false} ClearLowestEven(x: bv64, y: bv64)
    requires x != 0 && x & 1 == 0 && y == x >> 1
    requires Ones(y & (y - 1)) == Ones(y) - 1
    ensures Ones(x & (x - 1)) == Ones(x) - 1
  {
    var z, w := x & (x - 1), y & (y - 1);
    ClearStepEven(x, y, z, w);
    OnesShift(z, w);
    OnesShift(x, y);
  }

  lemma {:induction false} ClearStepEven(x: bv64, y: bv64, z: bv64, w: bv64)
    requires x != 0 && x & 1 == 0 && y == x >> 1 && z == x & (x - 1) && w == y & (y - 1)
    ensures Bit(x) == 0 && Bit(z) == 0 && z >> 1 == w
  {
    ClearStep(x);
  }

  /** numberOfSetBits64_2: one iteration per set bit. */
  method NumberOfSetBits64_2(i: bv64) returns (count: int)
    ensures count == PopCount64(i)
  {
    var x := i;
    count := 0;
    while x != 0
      invariant count + PopCount64(x) == PopCount64(i)
      decreases PopCount64(x)
    {
      ClearLowest(x);
      x := x & (x - 1);
      count := count + 1;
    }
  }

  /** The 32-bit form of `ClearLowest`: `i &= i-1` on an `int`. */
  lemma {:induction false} ClearLowest32(x: bv32)
    requires x != 0
    ensures PopCount32(x & (x - 1)) == PopCount32(x) - 1
  {
    var y := x as bv64;
    assert (x & (x - 1)) as bv64 == y & (y - 1);
    ClearLowest(y);
  }

  /** numberOfSetBits32_2: one iteration per set bit. */
  method NumberOfSetBits32_2(i: bv32) returns (count: int)
    ensures count == PopCount32(i)
  {
    var x := i;
    count := 0;
    while x != 0
      invariant count + PopCount32(x) == PopCount32(i)
      decreases PopCount32(x)
    {
      ClearLowest32(x);
      x := x & (x - 1);
      count := count + 1;
    }
  }

  // ---------------------------------------------------------------------
  // Counting byte by byte
  // ---------------------------------------------------------------------

  /** The number of 1 bits in the low byte of `y`. */
  function ByteOnes(y: bv64): (n: nat)
    ensures n <= 8
  {
    Bit(y) + Bit(y >> 1) + Bit(y >> 2) + Bit(y >> 3) + Bit(y >> 4) + Bit(y >> 5) + Bit(y >> 6) + Bit(y >> 7)
  }

  // Shifting one position at a time reaches the same value as one larger shift.
  lemma {:induction false} ShiftLink2(y: bv64, a: bv64, b: bv64)
    requires a == y >> 1 && b == a >> 1
    ensures b == y >> 2
  {
  }

  lemma {:induction false} ShiftLink3(y: bv64, a: bv64, b: bv64)
    requires a == y >> 2 && b == a >> 1
    ensures b == y >> 3
  {
  }

  lemma {:induction false} ShiftLink4(y: bv64, a: bv64, b: bv64)
    requires a == y >> 3 && b == a >> 1
    ensures b == y >> 4
  {
  }

  lemma {:induction false} ShiftLink5(y: bv64, a: bv64, b: bv64)
    requires a == y >> 4 && b == a >> 1
    ensures b == y >> 5
  {
  }

  lemma {:induction false} ShiftLink6(y: bv64, a: bv64, b: bv64)
    requires a == y >> 5 && b == a >> 1
    ensures b == y >> 6
  {
  }

  lemma {:induction false} ShiftLink7(y: bv64, a: bv64, b: bv64)
    requires a == y >> 6 && b == a >> 1
    ensures b == y >> 7
  {
  }

  lemma {:induction false} ShiftLink8(y: bv64, a: bv64, b: bv64)
    requires a == y >> 7 && b == a >> 1
    ensures b == y >> 8
  {
  }

  /** The count of `y` is the count of its low byte plus the count of the rest. */
  lemma {:induction false} ByteSplit(y: bv64)
    ensures Ones(y) == ByteOnes(y) + Ones(y >> 8)
  {
    var y1 := y >> 1;
    var y2 := y1 >> 1;
    var y3 := y2 >> 1;
    var y4 := y3 >> 1;
    var y5 := y4 >> 1;
    var y6 := y5 >> 1;
    var y7 := y6 >> 1;
    var y8 := y7 >> 1;
    OnesShift(y, y1);
    OnesShift(y1, y2);
    OnesShift(y2, y3);
    OnesShift(y3, y4);
    OnesShift(y4, y5);
    OnesShift(y5, y6);
    OnesShift(y6, y7);
    OnesShift(y7, y8);
    ShiftLink2(y, y1, y2);
    ShiftLink3(y, y2, y3);
    ShiftLink4(y, y3, y4);
    ShiftLink5(y, y4, y5);
    ShiftLink6(y, y5, y6);
    ShiftLink7(y, y6, y7);
    ShiftLink8(y, y7, y8);
  }

  // Shifting one byte at a time reaches the same value as one larger shift.
  lemma {:induction false} ByteLink2(x: bv64, a: bv64, b: bv64)
    requires a == x >> 8 && b == a >> 8
    ensures b == x >> 16
  {
  }

  lemma {:induction false} ByteLink3(x: bv64, a: bv64, b: bv64)
    requires a == x >> 16 && b == a >> 8
    ensures b == x >> 24
  {
  }

  lemma {:induction false} ByteLink4(x: bv64, a: bv64, b: bv64)
    requires a == x >> 24 && b == a >> 8
    ensures b == x >> 32
  {
  }

  lemma {:induction false} ByteLink5(x: bv64, a: bv64, b: bv64)
    requires a == x >> 32 && b == a >> 8
    ensures b == x >> 40
  {
  }

  lemma {:induction false} ByteLink6(x: bv64, a: bv64, b: bv64)
    requires a == x >> 40 && b == a >> 8
    ensures b == x >> 48
  {
  }

  lemma {:induction false} ByteLink7(x: bv64, a: bv64, b: bv64)
    requires a == x >> 48 && b == a >> 8
    ensures b == x >> 56
  {
  }

  lemma {:induction false} ByteLinkEnd(x: bv64, a: bv64, b: bv64)
    requires a == x >> 56 && b == a >> 8
    ensures b == 0
  {
  }

  /** A 64-bit count is the sum of the counts of its eight bytes. */
  lemma {:induction false} OnesBytes(x: bv64)
    ensures Ones(x) == ByteOnes(x) + ByteOnes(x >> 8) + ByteOnes(x >> 16) + ByteOnes(x >> 24)
      + ByteOnes(x >> 32) + ByteOnes(x >> 40) + ByteOnes(x >> 48) + ByteOnes(x >> 56)
  {
    var x1 := x >> 8;
    var x2 := x1 >> 8;
    var x3 := x2 >> 8;
    var x4 := x3 >> 8;
    var x5 := x4 >> 8;
    var x6 := x5 >> 8;
    var x7 := x6 >> 8;
    var x8 := x7 >> 8;
    ByteSplit(x);
    ByteSplit(x1);
    ByteSplit(x2);
    ByteSplit(x3);
    ByteSplit(x4);
    ByteSplit(x5);
    ByteSplit(x6);
    ByteSplit(x7);
    ByteLink2(x, x1, x2);
    ByteLink3(x, x2, x3);
    ByteLink4(x, x3, x4);
    ByteLink5(x, x4, x5);
    ByteLink6(x, x5, x6);
    ByteLink7(x, x6, x7);
    ByteLinkEnd(x, x7, x8);
  }

  // ---------------------------------------------------------------------
  // numberOfSetBits64_1: the SWAR count
  // ---------------------------------------------------------------------

  /** The low byte of `x`. */
  function Low(x: bv64): bv8
  {
    (x & 0xFF) as bv8
  }

  /** The 64-bit word whose bytes, from the low end, are `a` to `h`. */
  function Pack8(a: bv8, b: bv8, c: bv8, d: bv8, e: bv8, f: bv8, g: bv8, h: bv8): bv64
  {
    a as bv64 | (b as bv64 << 8) | (c as bv64 << 16) | (d as bv64 << 24)
    | (e as bv64 << 32) | (f as bv64 << 40) | (g as bv64 << 48) | (h as bv64 << 56)
  }

  /** Byte addition (modulo 256), named so that a sum of sums keeps its shape in the proofs. */
  function Sum8(s: bv8, t: bv8): bv8
  {
    s + t
  }

  /** The value of a byte. */
  function N8(s: bv8): nat
  {
    s as int
  }

  /** The lowest bit of `y` as a byte. */
  function LowBit(y: bv64): bv8
  {
    (y & 1) as bv8
  }

  /** The set bits of the low byte of `y`, added in adjacent pairs, then pairs of pairs, like the SWAR stages. */
  function BitSum8(y: bv64): bv8
  {
    Sum8(Sum8(Sum8(LowBit(y), LowBit(y >> 1)), Sum8(LowBit(y >> 2), LowBit(y >> 3))),
         Sum8(Sum8(LowBit(y >> 4), LowBit(y >> 5)), Sum8(LowBit(y >> 6), LowBit(y >> 7))))
  }

  /** Each 2-bit field of the result holds the count of the same field of `i`. */
  function Swar64Pairs(i: bv64): bv64
  {
    i - ((i >> 1) & 0x5555555555555555)
  }

  /** Each 4-bit field holds the sum of two adjacent 2-bit fields. */
  function Swar64Nibbles(i: bv64): bv64
  {
    (i & 0x3333333333333333) + ((i >> 2) & 0x3333333333333333)
  }

  /** Each byte of the result holds the count of the same byte of `i`. */
  function Swar64Bytes(i: bv64): bv64
  {
    var n := Swar64Nibbles(Swar64Pairs(i));
    (n + (n >> 4)) & 0x0F0F0F0F0F0F0F0F
  }

  /** The last step of numberOfSetBits64_1: one multiplication adds every byte into the top byte. */
  function SumBytes64(x: bv64): bv64
  {
    (x * 0x0101010101010101) >> 56
  }

  /** numberOfSetBits64_1: the byte counts, summed by one multiplication, which is the population count. */
  function NumberOfSetBits64_1(i: bv64): (n: bv64)
    ensures n as int == PopCount64(i)
  {
    Swar64IsPopCount(i);
    SumBytes64(Swar64Bytes(i))
  }

  // After the three masking stages, byte k of the word is the count of byte k of the input.

  lemma {:induction false} SwarByte0(x: bv64)
    ensures Low(Swar64Bytes(x)) == BitSum8(x)
  {
  }

  lemma {:induction false} SwarByte1(x: bv64)
    ensures Low(Swar64Bytes(x) >> 8) == BitSum8(x >> 8)
  {
  }

  lemma {:induction false} SwarByte2(x: bv64)
    ensures Low(Swar64Bytes(x) >> 16) == BitSum8(x >> 16)
  {
  }

  lemma {:induction false} SwarByte3(x: bv64)
    ensures Low(Swar64Bytes(x) >> 24) == BitSum8(x >> 24)
  {
  }

  lemma {:induction false} SwarByte4(x: bv64)
    ensures Low(Swar64Bytes(x) >> 32) == BitSum8(x >> 32)
  {
  }

  lemma {:induction false} SwarByte5(x: bv64)
    ensures Low(Swar64Bytes(x) >> 40) == BitSum8(x >> 40)
  {
  }

  lemma {:induction false} SwarByte6(x: bv64)
    ensures Low(Swar64Bytes(x) >> 48) == BitSum8(x >> 48)
  {
  }

  lemma {:induction false} SwarByte7(x: bv64)
    ensures Low(Swar64Bytes(x) >> 56) == BitSum8(x >> 56)
  {
  }

  lemma {:induction false} Repack(p: bv64)
    ensures p == Pack8(Low(p), Low(p >> 8), Low(p >> 16), Low(p >> 24), Low(p >> 32), Low(p >> 40), Low(p >> 48), Low(p >> 56))
  {
  }

  /** The word after the masking stages, byte by byte. */
  lemma {:induction false} SwarBytesPacked(i: bv64)
    ensures Swar64Bytes(i) == Pack8(BitSum8(i), BitSum8(i >> 8), BitSum8(i >> 16), BitSum8(i >> 24), BitSum8(i >> 32), BitSum8(i >> 40), BitSum8(i >> 48), BitSum8(i >> 56))
  {
    Repack(Swar64Bytes(i));
    SwarByte0(i);
    SwarByte1(i);
    SwarByte2(i);
    SwarByte3(i);
    SwarByte4(i);
    SwarByte5(i);
    SwarByte6(i);
    SwarByte7(i);
  }

  // From byte sums to numbers: each sum below is small enough not to wrap.
  lemma {:induction false} BitValue(z: bv64)
    ensures LowBit(z) <= 1 && N8(LowBit(z)) == Bit(z)
  {
  }

  lemma {:induction false} AddBits(s: bv8, t: bv8)
    requires s <= 1 && t <= 1
    ensures Sum8(s, t) <= 2 && N8(Sum8(s, t)) == N8(s) + N8(t)
  {
  }

  lemma {:induction false} AddPairs(s: bv8, t: bv8)
    requires s <= 2 && t <= 2
    ensures Sum8(s, t) <= 4 && N8(Sum8(s, t)) == N8(s) + N8(t)
  {
  }

  lemma {:induction false} AddNibbles(s: bv8, t: bv8)
    requires s <= 4 && t <= 4
    ensures Sum8(s, t) <= 8 && N8(Sum8(s, t)) == N8(s) + N8(t)
  {
  }

  /** Four bits added pairwise give their count. */
  lemma {:induction false} NibbleValue(p: bv64, q: bv64, r: bv64, s: bv64)
    ensures Sum8(Sum8(LowBit(p), LowBit(q)), Sum8(LowBit(r), LowBit(s))) <= 4
    ensures N8(Sum8(Sum8(LowBit(p), LowBit(q)), Sum8(LowBit(r), LowBit(s)))) == Bit(p) + Bit(q) + Bit(r) + Bit(s)
  {
    BitValue(p);
    BitValue(q);
    BitValue(r);
    BitValue(s);
    AddBits(LowBit(p), LowBit(q));
    AddBits(LowBit(r), LowBit(s));
    AddPairs(Sum8(LowBit(p), LowBit(q)), Sum8(LowBit(r), LowBit(s)));
  }

  /** The pairwise byte sum of the bits of the low byte is at most 8: no sum wraps. */
  lemma {:induction false} ByteBound(y: bv64)
    ensures BitSum8(y) <= 8
  {
  }

  /** The pairwise byte sum of the bits of the low byte is its count. */
  lemma {:induction false} ByteValue(y: bv64)
    ensures N8(BitSum8(y)) == ByteOnes(y)
  {
    NibbleValue(y, y >> 1, y >> 2, y >> 3);
    NibbleValue(y >> 4, y >> 5, y >> 6, y >> 7);
    AddNibbles(Sum8(Sum8(LowBit(y), LowBit(y >> 1)), Sum8(LowBit(y >> 2), LowBit(y >> 3))),
               Sum8(Sum8(LowBit(y >> 4), LowBit(y >> 5)), Sum8(LowBit(y >> 6), LowBit(y >> 7))));
  }

  // The multiplier 0x0101010101010101 is 0x10001 * 0x101 * 0x100000001: three shifted additions.
  function Times0x101(x: bv64): bv64
  {
    x * 0x101
  }

  function Times0x100000001(x: bv64): bv64
  {
    x * 0x100000001
  }

  lemma {:induction false} FactorOuter(x: bv64)
    ensures x * 0x0101010101010101 == Times0x100000001(x * 0x1010101)
  {
  }

  lemma {:induction false} FactorInner(x: bv64)
    ensures x * 0x1010101 == Times0x101(x * 0x10001)
  {
  }

  lemma {:induction false} SpreadPairsRaw(a: bv8, b: bv8, c: bv8, d: bv8, e: bv8, f: bv8, g: bv8, h: bv8)
    requires a <= 8 && b <= 8 && c <= 8 && d <= 8 && e <= 8 && f <= 8 && g <= 8 && h <= 8
    ensures Pack8(a, b, c, d, e, f, g, h) * 0x10001 == Pack8(a, b, a + c, b + d, c + e, d + f, e + g, f + h)
  {
  }

  /** Times 0x10001 adds each byte to the one two places up; bytes of at most 8 do not carry. */
  lemma {:induction false} SpreadPairs(a: bv8, b: bv8, c: bv8, d: bv8, e: bv8, f: bv8, g: bv8, h: bv8)
    requires a <= 8 && b <= 8 && c <= 8 && d <= 8 && e <= 8 && f <= 8 && g <= 8 && h <= 8
    ensures Pack8(a, b, c, d, e, f, g, h) * 0x10001 == Pack8(a, b, Sum8(a, c), Sum8(b, d), Sum8(c, e), Sum8(d, f), Sum8(e, g), Sum8(f, h))
  {
    SpreadPairsRaw(a, b, c, d, e, f, g, h);
  }

  lemma {:induction false} SpreadNeighboursRaw(a: bv8, b: bv8, c: bv8, d: bv8, e: bv8, f: bv8, g: bv8, h: bv8)
    requires a <= 16 && b <= 16 && c <= 16 && d <= 16 && e <= 16 && f <= 16 && g <= 16 && h <= 16
    ensures Pack8(a, b, c, d, e, f, g, h) * 0x101 == Pack8(a, a + b, b + c, c + d, d + e, e + f, f + g, g + h)
  {
  }

  /** Times 0x101 adds each byte to the next one up; bytes of at most 16 do not carry. */
  lemma {:induction false} SpreadNeighbours(a: bv8, b: bv8, c: bv8, d: bv8, e: bv8, f: bv8, g: bv8, h: bv8)
    requires a <= 16 && b <= 16 && c <= 16 && d <= 16 && e <= 16 && f <= 16 && g <= 16 && h <= 16
    ensures Times0x101(Pack8(a, b, c, d, e, f, g, h)) == Pack8(a, Sum8(a, b), Sum8(b, c), Sum8(c, d), Sum8(d, e), Sum8(e, f), Sum8(f, g), Sum8(g, h))
  {
    SpreadNeighboursRaw(a, b, c, d, e, f, g, h);
  }

  lemma {:induction false} SpreadHalvesRaw(a: bv8, b: bv8, c: bv8, d: bv8, e: bv8, f: bv8, g: bv8, h: bv8)
    requires a <= 32 && b <= 32 && c <= 32 && d <= 32 && e <= 32 && f <= 32 && g <= 32 && h <= 32
    ensures (Pack8(a, b, c, d, e, f, g, h) * 0x100000001) >> 56 == (d + h) as bv64
  {
  }

  /** Times 0x100000001 adds the low half to the high half; its top byte is the sum of bytes 3 and 7. */
  lemma {:induction false} SpreadHalves(a: bv8, b: bv8, c: bv8, d: bv8, e: bv8, f: bv8, g: bv8, h: bv8)
    requires a <= 32 && b <= 32 && c <= 32 && d <= 32 && e <= 32 && f <= 32 && g <= 32 && h <= 32
    ensures Times0x100000001(Pack8(a, b, c, d, e, f, g, h)) >> 56 == Sum8(d, h) as bv64
  {
    SpreadHalvesRaw(a, b, c, d, e, f, g, h);
  }

  lemma {:induction false} AtMost16(s: bv8, t: bv8)
    requires s <= 8 && t <= 8
    ensures Sum8(s, t) <= 16
  {
  }

  lemma {:induction false} AtMost32(s: bv8, t: bv8)
    requires s <= 16 && t <= 16
    ensures Sum8(s, t) <= 32
  {
  }

  /** The bytes after the first two factors stay at most 32. */
  lemma {:induction false} NeighbourBounds(a: bv8, b: bv8, c: bv8, d: bv8, e: bv8, f: bv8, g: bv8, h: bv8)
    requires a <= 8 && b <= 8 && c <= 8 && d <= 8 && e <= 8 && f <= 8 && g <= 8 && h <= 8
    ensures Sum8(a, b) <= 32 && Sum8(b, Sum8(a, c)) <= 32
    ensures Sum8(Sum8(a, c), Sum8(b, d)) <= 32 && Sum8(Sum8(b, d), Sum8(c, e)) <= 32 && Sum8(Sum8(c, e), Sum8(d, f)) <= 32
    ensures Sum8(Sum8(d, f), Sum8(e, g)) <= 32 && Sum8(Sum8(e, g), Sum8(f, h)) <= 32
  {
    AtMost16(a, c);
    AtMost16(b, d);
    AtMost16(c, e);
    AtMost16(d, f);
    AtMost16(e, g);
    AtMost16(f, h);
    AtMost32(a, b);
    AtMost32(b, Sum8(a, c));
    AtMost32(Sum8(a, c), Sum8(b, d));
    AtMost32(Sum8(b, d), Sum8(c, e));
    AtMost32(Sum8(c, e), Sum8(d, f));
    AtMost32(Sum8(d, f), Sum8(e, g));
    AtMost32(Sum8(e, g), Sum8(f, h));
  }

  /** The first two factors of the multiplier. */
  lemma {:induction false} SpreadTwice(a: bv8, b: bv8, c: bv8, d: bv8, e: bv8, f: bv8, g: bv8, h: bv8)
    requires a <= 8 && b <= 8 && c <= 8 && d <= 8 && e <= 8 && f <= 8 && g <= 8 && h <= 8
    ensures Pack8(a, b, c, d, e, f, g, h) * 0x0101010101010101 == Times0x100000001(Pack8(a, Sum8(a, b), Sum8(b, Sum8(a, c)), Sum8(Sum8(a, c), Sum8(b, d)), Sum8(Sum8(b, d), Sum8(c, e)), Sum8(Sum8(c, e), Sum8(d, f)), Sum8(Sum8(d, f), Sum8(e, g)), Sum8(Sum8(e, g), Sum8(f, h))))
  {
    FactorOuter(Pack8(a, b, c, d, e, f, g, h));
    FactorInner(Pack8(a, b, c, d, e, f, g, h));
    SpreadPairs(a, b, c, d, e, f, g, h);
    AtMost16(a, c);
    AtMost16(b, d);
    AtMost16(c, e);
    AtMost16(d, f);
    AtMost16(e, g);
    AtMost16(f, h);
    SpreadNeighbours(a, b, Sum8(a, c), Sum8(b, d), Sum8(c, e), Sum8(d, f), Sum8(e, g), Sum8(f, h));
  }

  /** The last factor, once the product is known as `Times0x100000001` of bytes at most 32. */
  lemma {:induction false} TopByte(p: bv8, q: bv8, r: bv8, s: bv8, t: bv8, u: bv8, v: bv8, w: bv8, a: bv8, b: bv8, c: bv8, d: bv8, e: bv8, f: bv8, g: bv8, h: bv8)
    requires a <= 32 && b <= 32 && c <= 32 && d <= 32 && e <= 32 && f <= 32 && g <= 32 && h <= 32
    requires Pack8(p, q, r, s, t, u, v, w) * 0x0101010101010101 == Times0x100000001(Pack8(a, b, c, d, e, f, g, h))
    ensures (Pack8(p, q, r, s, t, u, v, w) * 0x0101010101010101) >> 56 == Sum8(d, h) as bv64
  {
    SpreadHalves(a, b, c, d, e, f, g, h);
  }

  lemma {:induction false} MulTopRaw(a: bv8, b: bv8, c: bv8, d: bv8, e: bv8, f: bv8, g: bv8, h: bv8)
    requires a <= 8 && b <= 8 && c <= 8 && d <= 8 && e <= 8 && f <= 8 && g <= 8 && h <= 8
    ensures (Pack8(a, b, c, d, e, f, g, h) * 0x0101010101010101) >> 56 == Sum8(Sum8(Sum8(a, c), Sum8(b, d)), Sum8(Sum8(e, g), Sum8(f, h))) as bv64
  {
    SpreadTwice(a, b, c, d, e, f, g, h);
    NeighbourBounds(a, b, c, d, e, f, g, h);
    TopByte(a, b, c, d, e, f, g, h, a, Sum8(a, b), Sum8(b, Sum8(a, c)), Sum8(Sum8(a, c), Sum8(b, d)), Sum8(Sum8(b, d), Sum8(c, e)), Sum8(Sum8(c, e), Sum8(d, f)), Sum8(Sum8(d, f), Sum8(e, g)), Sum8(Sum8(e, g), Sum8(f, h)));
  }

  /** Multiplying bytes of at most 8 by 0x0101010101010101 leaves their sum in the top byte. */
  lemma {:induction false} MulTop(a: bv8, b: bv8, c: bv8, d: bv8, e: bv8, f: bv8, g: bv8, h: bv8)
    requires a <= 8 && b <= 8 && c <= 8 && d <= 8 && e <= 8 && f <= 8 && g <= 8 && h <= 8
    ensures SumBytes64(Pack8(a, b, c, d, e, f, g, h)) == Sum8(Sum8(Sum8(a, c), Sum8(b, d)), Sum8(Sum8(e, g), Sum8(f, h))) as bv64
  {
    MulTopRaw(a, b, c, d, e, f, g, h);
  }

  lemma {:induction false} AddSmall(s: bv8, t: bv8)
    requires s <= 32 && t <= 32
    ensures N8(Sum8(s, t)) == N8(s) + N8(t)
  {
  }

  /** The sum tree of `MulTop` is the plain sum of the eight bytes. */
  lemma {:induction false} TreeValue(a: bv8, b: bv8, c: bv8, d: bv8, e: bv8, f: bv8, g: bv8, h: bv8)
    requires a <= 8 && b <= 8 && c <= 8 && d <= 8 && e <= 8 && f <= 8 && g <= 8 && h <= 8
    ensures N8(Sum8(Sum8(Sum8(a, c), Sum8(b, d)), Sum8(Sum8(e, g), Sum8(f, h)))) == N8(a) + N8(b) + N8(c) + N8(d) + N8(e) + N8(f) + N8(g) + N8(h)
  {
    AddSmall(a, c);
    AddSmall(b, d);
    AddSmall(e, g);
    AddSmall(f, h);
    AtMost16(a, c);
    AtMost16(b, d);
    AtMost16(e, g);
    AtMost16(f, h);
    AddSmall(Sum8(a, c), Sum8(b, d));
    AddSmall(Sum8(e, g), Sum8(f, h));
    AtMost32(Sum8(a, c), Sum8(b, d));
    AtMost32(Sum8(e, g), Sum8(f, h));
    AddSmall(Sum8(Sum8(a, c), Sum8(b, d)), Sum8(Sum8(e, g), Sum8(f, h)));
  }

  /** A byte, zero-extended, has the same value. */
  lemma {:induction false} Widen(x: bv64, s: bv8)
    requires x == s as bv64
    ensures x as int == N8(s)
  {
  }

  /** The SWAR count of numberOfSetBits64_1 multiplies the eight byte counts. */
  lemma {:induction false} SwarProduct(i: bv64)
    ensures SumBytes64(Swar64Bytes(i)) == SumBytes64(Pack8(BitSum8(i), BitSum8(i >> 8), BitSum8(i >> 16), BitSum8(i >> 24), BitSum8(i >> 32), BitSum8(i >> 40), BitSum8(i >> 48), BitSum8(i >> 56)))
  {
    SwarBytesPacked(i);
  }

  /** Each of the eight byte counts is at most 8. */
  lemma BytesBounded(i: bv64)
    ensures BitSum8(i) <= 8 && BitSum8(i >> 8) <= 8 && BitSum8(i >> 16) <= 8 && BitSum8(i >> 24) <= 8 && BitSum8(i >> 32) <= 8 && BitSum8(i >> 40) <= 8 && BitSum8(i >> 48) <= 8 && BitSum8(i >> 56) <= 8
  {
    ByteBound(i);
    ByteBound(i >> 8);
    ByteBound(i >> 16);
    ByteBound(i >> 24);
    ByteBound(i >> 32);
    ByteBound(i >> 40);
    ByteBound(i >> 48);
    ByteBound(i >> 56);
  }

  /** The top byte of a product of eight small bytes, by any name, is their sum. */
  lemma {:induction false} ProductValue(n: bv64, a: bv8, b: bv8, c: bv8, d: bv8, e: bv8, f: bv8, g: bv8, h: bv8)
    requires a <= 8 && b <= 8 && c <= 8 && d <= 8 && e <= 8 && f <= 8 && g <= 8 && h <= 8
    requires n == SumBytes64(Pack8(a, b, c, d, e, f, g, h))
    ensures n as int == N8(a) + N8(b) + N8(c) + N8(d) + N8(e) + N8(f) + N8(g) + N8(h)
  {
    MulTop(a, b, c, d, e, f, g, h);
    Widen(n, Sum8(Sum8(Sum8(a, c), Sum8(b, d)), Sum8(Sum8(e, g), Sum8(f, h))));
    TreeValue(a, b, c, d, e, f, g, h);
  }

  /** The SWAR count of numberOfSetBits64_1 is the sum of the eight byte counts. */
  lemma {:induction false} SwarTotal(i: bv64)
    ensures SumBytes64(Swar64Bytes(i)) as int == N8(BitSum8(i)) + N8(BitSum8(i >> 8)) + N8(BitSum8(i >> 16)) + N8(BitSum8(i >> 24)) + N8(BitSum8(i >> 32)) + N8(BitSum8(i >> 40)) + N8(BitSum8(i >> 48)) + N8(BitSum8(i >> 56))
  {
    SwarProduct(i);
    BytesBounded(i);
    ProductValue(SumBytes64(Swar64Bytes(i)), BitSum8(i), BitSum8(i >> 8), BitSum8(i >> 16), BitSum8(i >> 24), BitSum8(i >> 32), BitSum8(i >> 40), BitSum8(i >> 48), BitSum8(i >> 56));
  }

  /** The eight byte counts add up to the population count. */
  lemma {:induction false} ByteCounts(i: bv64)
    ensures N8(BitSum8(i)) + N8(BitSum8(i >> 8)) + N8(BitSum8(i >> 16)) + N8(BitSum8(i >> 24)) + N8(BitSum8(i >> 32)) + N8(BitSum8(i >> 40)) + N8(BitSum8(i >> 48)) + N8(BitSum8(i >> 56)) == PopCount64(i)
  {
    ByteValue(i);
    ByteValue(i >> 8);
    ByteValue(i >> 16);
    ByteValue(i >> 24);
    ByteValue(i >> 32);
    ByteValue(i >> 40);
    ByteValue(i >> 48);
    ByteValue(i >> 56);
    OnesBytes(i);
  }

  /** The SWAR count of numberOfSetBits64_1 computes the population count. */
  lemma {:induction false} Swar64IsPopCount(i: bv64)
    ensures SumBytes64(Swar64Bytes(i)) as int == PopCount64(i)
  {
    SwarTotal(i);
    ByteCounts(i);
  }

  // ---------------------------------------------------------------------
  // numberOfSetBits32: the SWAR count on an `int`
  // ---------------------------------------------------------------------

  /** Each 2-bit field of the result holds the count of the same field of `i`. */
  function Swar32Pairs(i: bv32): bv32
  {
    i - ((i >> 1) & 0x55555555)
  }

  /** Each 4-bit field holds the sum of two adjacent 2-bit fields. */
  function Swar32Nibbles(i: bv32): bv32
  {
    (i & 0x33333333) + ((i >> 2) & 0x33333333)
  }

  /** Each byte of the result holds the count of the same byte of `i`. */
  function Swar32Bytes(i: bv32): bv32
  {
    var n := Swar32Nibbles(Swar32Pairs(i));
    (n + (n >> 4)) & 0x0F0F0F0F
  }

  /** The last step of numberOfSetBits32: one multiplication adds the four bytes into the top byte. */
  function SumBytes32(x: bv32): bv32
  {
    (x * 0x01010101) >> 24
  }

  /** numberOfSetBits32: the byte counts, summed by one multiplication, which is the population count. */
  function NumberOfSetBits32(i: bv32): (n: bv32)
    ensures n as int == PopCount32(i)
  {
    Swar32IsPopCount(i);
    SumBytes32(Swar32Bytes(i))
  }

  /** The low byte of a 32-bit `x`. */
  function LowByte32(x: bv32): bv8
  {
    (x & 0xFF) as bv8
  }

  /** The 32-bit word whose bytes, from the low end, are `a` to `d`. */
  function Pack4(a: bv8, b: bv8, c: bv8, d: bv8): bv32
  {
    a as bv32 | (b as bv32 << 8) | (c as bv32 << 16) | (d as bv32 << 24)
  }

  // Byte k of the word after the masking stages is the count of byte k of the input.
  lemma {:induction false} SwarByte32_0(x: bv32)
    ensures LowByte32(Swar32Bytes(x)) == BitSum8(x as bv64)
  {
  }

  lemma {:induction false} SwarByte32_1(x: bv32)
    ensures LowByte32(Swar32Bytes(x) >> 8) == BitSum8(x as bv64 >> 8)
  {
  }

  lemma {:induction false} SwarByte32_2(x: bv32)
    ensures LowByte32(Swar32Bytes(x) >> 16) == BitSum8(x as bv64 >> 16)
  {
  }

  lemma {:induction false} SwarByte32_3(x: bv32)
    ensures LowByte32(Swar32Bytes(x) >> 24) == BitSum8(x as bv64 >> 24)
  {
  }

  lemma {:induction false} Repack4(p: bv32)
    ensures p == Pack4(LowByte32(p), LowByte32(p >> 8), LowByte32(p >> 16), LowByte32(p >> 24))
  {
  }

  /** The 32-bit word after the masking stages, byte by byte. */
  lemma {:induction false} SwarBytesPacked32(i: bv32)
    ensures Swar32Bytes(i) == Pack4(BitSum8(i as bv64), BitSum8(i as bv64 >> 8), BitSum8(i as bv64 >> 16), BitSum8(i as bv64 >> 24))
  {
    Repack4(Swar32Bytes(i));
    SwarByte32_0(i);
    SwarByte32_1(i);
    SwarByte32_2(i);
    SwarByte32_3(i);
  }

  lemma {:induction false} MulTop32Raw(a: bv8, b: bv8, c: bv8, d: bv8)
    requires a <= 8 && b <= 8 && c <= 8 && d <= 8
    ensures (Pack4(a, b, c, d) * 0x01010101) >> 24 == (a + b + c + d) as bv32
  {
  }

  /** Multiplying bytes of at most 8 by 0x01010101 leaves their sum in the top byte. */
  lemma {:induction false} MulTop32(a: bv8, b: bv8, c: bv8, d: bv8)
    requires a <= 8 && b <= 8 && c <= 8 && d <= 8
    ensures SumBytes32(Pack4(a, b, c, d)) == Sum8(Sum8(a, b), Sum8(c, d)) as bv32
  {
    MulTop32Raw(a, b, c, d);
  }

  lemma {:induction false} Widen32(x: bv32, s: bv8)
    requires x == s as bv32
    ensures x as int == N8(s)
  {
  }

  /** The top byte of a product of four small bytes, by any name, is their sum. */
  lemma {:induction false} ProductValue32(n: bv32, a: bv8, b: bv8, c: bv8, d: bv8)
    requires a <= 8 && b <= 8 && c <= 8 && d <= 8
    requires n == SumBytes32(Pack4(a, b, c, d))
    ensures n as int == N8(a) + N8(b) + N8(c) + N8(d)
  {
    MulTop32(a, b, c, d);
    Widen32(n, Sum8(Sum8(a, b), Sum8(c, d)));
    AtMost16(a, b);
    AtMost16(c, d);
    AddSmall(a, b);
    AddSmall(c, d);
    AddSmall(Sum8(a, b), Sum8(c, d));
  }

  /** The SWAR count of numberOfSetBits32 multiplies the four byte counts. */
  lemma {:induction false} SwarProduct32(i: bv32)
    ensures SumBytes32(Swar32Bytes(i)) == SumBytes32(Pack4(BitSum8(i as bv64), BitSum8(i as bv64 >> 8), BitSum8(i as bv64 >> 16), BitSum8(i as bv64 >> 24)))
  {
    SwarBytesPacked32(i);
  }

  /** Each of the four byte counts is at most 8. */
  lemma {:induction false} BytesBounded32(i: bv32)
    ensures BitSum8(i as bv64) <= 8 && BitSum8(i as bv64 >> 8) <= 8 && BitSum8(i as bv64 >> 16) <= 8 && BitSum8(i as bv64 >> 24) <= 8
  {
    ByteBound(i as bv64);
    ByteBound(i as bv64 >> 8);
    ByteBound(i as bv64 >> 16);
    ByteBound(i as bv64 >> 24);
  }

  /** The SWAR count of numberOfSetBits32 is the sum of the four byte counts. */
  lemma {:induction false} SwarTotal32(i: bv32)
    ensures SumBytes32(Swar32Bytes(i)) as int == N8(BitSum8(i as bv64)) + N8(BitSum8(i as bv64 >> 8)) + N8(BitSum8(i as bv64 >> 16)) + N8(BitSum8(i as bv64 >> 24))
  {
    SwarProduct32(i);
    BytesBounded32(i);
    ProductValue32(SumBytes32(Swar32Bytes(i)), BitSum8(i as bv64), BitSum8(i as bv64 >> 8), BitSum8(i as bv64 >> 16), BitSum8(i as bv64 >> 24));
  }

  /** The four upper bytes of a zero-extended `int` hold no set bit. */
  lemma {:induction false} UpperBytesZero(i: bv32)
    ensures ByteOnes(i as bv64 >> 32) == 0 && ByteOnes(i as bv64 >> 40) == 0
    ensures ByteOnes(i as bv64 >> 48) == 0 && ByteOnes(i as bv64 >> 56) == 0
  {
  }

  /** When the four upper bytes are clear, the four lower byte counts add up to the count. */
  lemma {:induction false} LowerByteCounts(x: bv64)
    requires ByteOnes(x >> 32) == 0 && ByteOnes(x >> 40) == 0
    requires ByteOnes(x >> 48) == 0 && ByteOnes(x >> 56) == 0
    ensures N8(BitSum8(x)) + N8(BitSum8(x >> 8)) + N8(BitSum8(x >> 16)) + N8(BitSum8(x >> 24)) == Ones(x)
  {
    ByteValue(x);
    ByteValue(x >> 8);
    ByteValue(x >> 16);
    ByteValue(x >> 24);
    OnesBytes(x);
  }

  /** The four byte counts add up to the population count. */
  lemma {:induction false} ByteCounts32(i: bv32)
    ensures N8(BitSum8(i as bv64)) + N8(BitSum8(i as bv64 >> 8)) + N8(BitSum8(i as bv64 >> 16)) + N8(BitSum8(i as bv64 >> 24)) == PopCount32(i)
  {
    UpperBytesZero(i);
    LowerByteCounts(i as bv64);
  }

  /** The SWAR count of numberOfSetBits32 computes the population count. */
  lemma {:induction false} Swar32IsPopCount(i: bv32)
    ensures SumBytes32(Swar32Bytes(i)) as int == PopCount32(i)
  {
    SwarTotal32(i);
    ByteCounts32(i);
  }

  // ---------------------------------------------------------------------
  // Range of the counts
  // ---------------------------------------------------------------------

  /** A `long` has at most 64 set bits, so every count fits the declared result types. */
  lemma {:induction false} PopCountBound64(x: bv64)
    ensures PopCount64(x) <= 64
  {
    OnesBytes(x);
  }

  /** An `int` has at most 32 set bits. */
  lemma {:induction false} PopCountBound32(x: bv32)
    ensures PopCount32(x) <= 32
  {
    OnesBytes(x as bv64);
    UpperBytesZero(x);
  }

  /** 0L has no set bit and -1L, all bits set, has 64. */
  lemma {:induction false} PopCountExtremes64()
    ensures PopCount64(0) == 0 && PopCount64(0xFFFF_FFFF_FFFF_FFFF) == 64
  {
    OnesBytes(0xFFFF_FFFF_FFFF_FFFF);
  }

  /** 0 has no set bit and -1, all bits set, has 32. */
  lemma {:induction false} PopCountExtremes32()
    ensures PopCount32(0) == 0 && PopCount32(0xFFFF_FFFF) == 32
  {
    OnesBytes(0xFFFF_FFFF);
    UpperBytesZero(0xFFFF_FFFF);
  }

  /** numberOfSetBits64_1 returns a value in [0, 64]: 0 for 0L and 64 for -1L. */
  lemma {:induction false} NumberOfSetBits64_1Range(i: bv64)
    ensures NumberOfSetBits64_1(i) as int <= 64
    ensures i == 0 ==> NumberOfSetBits64_1(i) as int == 0
    ensures i == 0xFFFF_FFFF_FFFF_FFFF ==> NumberOfSetBits64_1(i) as int == 64
  {
    PopCountBound64(i);
    PopCountExtremes64();
  }

  /** numberOfSetBits32 returns a value in [0, 32]: 0 for 0 and 32 for -1. */
  lemma {:induction false} NumberOfSetBits32Range(i: bv32)
    ensures NumberOfSetBits32(i) as int <= 32
    ensures i == 0 ==> NumberOfSetBits32(i) as int == 0
    ensures i == 0xFFFF_FFFF ==> NumberOfSetBits32(i) as int == 32
  {
    PopCountBound32(i);
    PopCountExtremes32();
  }
}
