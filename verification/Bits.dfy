/** Bits inside byte vectors: setting, reading, counting, and fields of up to 64 bits. */
module Bits {
  import opened Basics
  import Words = Bytes

  type Bytes = seq<bv8>

  // ---- One byte ----

  // Shifts by `k` places are written as `k` shifts by one place.

  /** 1 << k */
  function Mask(k: nat): bv8
    requires k < 8
  {
    if k == 0 then 1 else Mask(k - 1) << 1
  }

  /** (b >> k) & 1 == 1 */
  predicate Bit(b: bv8, k: nat)
    requires k < 8
  {
    if k == 0 then b & 1 == 1 else Bit(b >> 1, k - 1)
  }

  function WithBit(b: bv8, k: nat, on: bool): bv8
    requires k < 8
  {
    if on then b | Mask(k) else b & !Mask(k)
  }

  lemma {:induction false} MaskInByte(k: nat)
    requires k < 7
    ensures Mask(k) & 0x80 == 0
  {
    assert k == 0 || k == 1 || k == 2 || k == 3 || k == 4 || k == 5 || k == 6;
  }

  lemma OrShifted(b: bv8, m: bv8)
    requires m & 0x80 == 0
    ensures (b | (m << 1)) >> 1 == (b >> 1) | m && (b | (m << 1)) & 1 == b & 1
  {
  }

  lemma AndShifted(b: bv8, m: bv8)
    requires m & 0x80 == 0
    ensures (b & !(m << 1)) >> 1 == (b >> 1) & !m && (b & !(m << 1)) & 1 == b & 1
  {
  }

  lemma LowestBit(b: bv8)
    ensures (b | 1) >> 1 == b >> 1 && (b & !1) >> 1 == b >> 1
    ensures (b | 1) & 1 == 1 && (b & !1) & 1 == 0
  {
  }

  /** Or-ing in a mask, or and-ing with its complement, changes one bit of a byte. */
  lemma {:induction false} WithBitAt(b: bv8, k: nat, on: bool, j: nat)
    requires k < 8 && j < 8
    ensures Bit(WithBit(b, k, on), j) == if j == k then on else Bit(b, j)
    decreases k
  {
    if k == 0 {
      LowestBit(b);
    } else {
      MaskInByte(k - 1);
      OrShifted(b, Mask(k - 1));
      AndShifted(b, Mask(k - 1));
      if j > 0 {
        WithBitAt(b >> 1, k - 1, on, j - 1);
      }
    }
  }

  lemma {:induction false} ZeroBits(k: nat)
    requires k < 8
    ensures !Bit(0, k)
  {
    if k > 0 {
      ZeroBits(k - 1);
    }
  }

  function OnesBelow(b: bv8, n: nat): nat
    requires n <= 8
  {
    if n == 0 then 0 else OnesBelow(b, n - 1) + if Bit(b, n - 1) then 1 else 0
  }

  function CountOnes(b: bv8): nat {
    OnesBelow(b, 8)
  }

  // ---- A byte vector ----

  /** Bit `i` of a vector; past its end there are only zeros. */
  predicate BitAt(bytes: Bytes, i: nat) {
    i / 8 < |bytes| && Bit(bytes[i / 8], i % 8)
  }

  /** The vector after `set_bit`: grown with zeros until it holds the bit, then changed in one place. */
  function SetBit(bytes: Bytes, bit: nat, on: bool): (r: Bytes)
    ensures |r| == if |bytes| <= bit / 8 then bit / 8 + 1 else |bytes|
    decreases bit / 8 + 1 - |bytes|
  {
    if |bytes| <= bit / 8 then SetBit(bytes + [0], bit, on)
    else bytes[bit / 8 := WithBit(bytes[bit / 8], bit % 8, on)]
  }

  /** Setting one bit changes that bit and no other, however far the vector grows. */
  lemma {:induction false} SetBitAt(bytes: Bytes, bit: nat, on: bool, i: nat)
    ensures BitAt(SetBit(bytes, bit, on), i) == if i == bit then on else BitAt(bytes, i)
    decreases bit / 8 + 1 - |bytes|
  {
    if |bytes| <= bit / 8 {
      SetBitAt(bytes + [0], bit, on, i);
      ZeroBits(i % 8);
    } else if i / 8 == bit / 8 {
      WithBitAt(bytes[bit / 8], bit % 8, on, i % 8);
      assert i == 8 * (i / 8) + i % 8 && bit == 8 * (bit / 8) + bit % 8;
    }
  }

  // ---- Counting ----

  function CountAll(bytes: Bytes): nat {
    if bytes == [] then 0 else CountAll(bytes[..|bytes| - 1]) + CountOnes(bytes[|bytes| - 1])
  }

  function Positions(bytes: Bytes, n: nat): set<nat> {
    set i: nat | i < n && BitAt(bytes, i)
  }

  lemma PositionsStep(bytes: Bytes, n: nat)
    ensures |Positions(bytes, n + 1)| == |Positions(bytes, n)| + if BitAt(bytes, n) then 1 else 0
  {
    if BitAt(bytes, n) {
      assert Positions(bytes, n + 1) == Positions(bytes, n) + {n};
    } else {
      assert Positions(bytes, n + 1) == Positions(bytes, n);
    }
  }

  lemma PositionsPrefix(bytes: Bytes, n: nat)
    requires bytes != [] && n <= 8 * (|bytes| - 1)
    ensures Positions(bytes, n) == Positions(bytes[..|bytes| - 1], n)
  {
    var front := bytes[..|bytes| - 1];
    forall i: nat | i < n
      ensures BitAt(bytes, i) == BitAt(front, i)
    {
      assert i / 8 < |front|;
    }
  }

  lemma LastByteBits(bytes: Bytes, k: nat)
    requires bytes != [] && k < 8
    ensures BitAt(bytes, 8 * (|bytes| - 1) + k) == Bit(bytes[|bytes| - 1], k)
  {
    var i := 8 * (|bytes| - 1) + k;
    assert i / 8 == |bytes| - 1 && i % 8 == k;
  }

  lemma {:induction false} LastByteCount(bytes: Bytes, k: nat)
    requires bytes != [] && k <= 8
    ensures var n := 8 * (|bytes| - 1);
            |Positions(bytes, n + k)| == |Positions(bytes, n)| + OnesBelow(bytes[|bytes| - 1], k)
  {
    if k > 0 {
      LastByteCount(bytes, k - 1);
      LastByteBits(bytes, k - 1);
      PositionsStep(bytes, 8 * (|bytes| - 1) + k - 1);
    }
  }

  /** Adding up the ones of each byte counts the positions whose bit is set. */
  lemma {:induction false} CountIsPositions(bytes: Bytes)
    ensures CountAll(bytes) == |Positions(bytes, 8 * |bytes|)|
  {
    if bytes == [] {
      assert Positions(bytes, 0) == {};
    } else {
      CountIsPositions(bytes[..|bytes| - 1]);
      PositionsPrefix(bytes, 8 * (|bytes| - 1));
      LastByteCount(bytes, 8);
    }
  }

  // ---- Fields ----

  function Pow2(n: nat): (p: nat)
    ensures p >= 1
  {
    if n == 0 then 1 else 2 * Pow2(n - 1)
  }

  /** Bit `i` of a number: shifted right `i` times, is it odd. */
  predicate BitOf(v: nat, i: nat) {
    if i == 0 then v % 2 == 1 else BitOf(v / 2, i - 1)
  }

  /** v | (1 << j) */
  function OrBit(v: nat, j: nat): nat {
    if BitOf(v, j) then v else v + Pow2(j)
  }

  lemma OrBitHalves(v: nat, j: nat)
    requires j > 0
    ensures OrBit(v, j) == 2 * OrBit(v / 2, j - 1) + v % 2
  {
  }

  lemma {:induction false} OrBitAt(v: nat, j: nat, k: nat)
    ensures BitOf(OrBit(v, j), k) <==> k == j || BitOf(v, k)
  {
    if j > 0 {
      OrBitHalves(v, j);
      if k > 0 {
        OrBitAt(v / 2, j - 1, k - 1);
      }
    }
  }

  lemma {:induction false} OrBitBound(v: nat, j: nat, n: nat)
    requires v < Pow2(n) && j < n
    ensures OrBit(v, j) < Pow2(n)
  {
    assert Pow2(n) == 2 * Pow2(n - 1);
    if j > 0 {
      OrBitHalves(v, j);
      OrBitBound(v / 2, j - 1, n - 1);
    }
  }

  lemma {:induction false} HighBitsClear(v: nat, n: nat)
    requires v < Pow2(n)
    ensures !BitOf(v, n)
  {
    if n > 0 {
      HighBitsClear(v / 2, n - 1);
    }
  }

  lemma Halves(b: bv8)
    ensures b as int == 2 * ((b >> 1) as int) + (if b & 1 == 1 then 1 else 0)
  {
  }

  /** Bit `k` of a byte has the weight 2^k: the first bit is the least significant one. */
  lemma {:induction false} BitHasWeight(b: bv8, k: nat)
    requires k < 8
    ensures Bit(b, k) <==> BitOf(b as int, k)
  {
    Halves(b);
    if k > 0 {
      BitHasWeight(b >> 1, k - 1);
    }
  }

  /** The position of bit `i` of a field: it is computed in 32 bits and wraps around. */
  function Pos(offset: nat, i: nat): nat {
    (offset + i) % Words.U32
  }

  /** Whether a position belongs to a field. */
  predicate Inside(offset: nat, width: nat, p: nat) {
    p < Words.U32 && (p - offset) % Words.U32 < width
  }

  lemma PosInverse(offset: nat, i: nat, p: nat)
    requires offset < Words.U32 && i < Words.U32 && p < Words.U32
    ensures Pos(offset, i) == p <==> (p - offset) % Words.U32 == i
    ensures Pos(offset, i) == if offset + i < 0x1_0000_0000 then offset + i else offset + i - 0x1_0000_0000
  {
  }

  /** The bits of a field, or-ed together from bit 0 on. A shift takes its distance modulo 64, so a
      field wider than that folds back onto itself. */
  function Field(bytes: Bytes, offset: nat, width: nat): nat {
    if width == 0 then 0
    else
      var v := Field(bytes, offset, width - 1);
      if BitAt(bytes, Pos(offset, width - 1)) then OrBit(v, (width - 1) % 64) else v
  }

  /** Bit `j` of a field is set exactly when one of the bits that fall on it is. */
  lemma {:induction false} FieldBits(bytes: Bytes, offset: nat, width: nat, j: nat)
    ensures BitOf(Field(bytes, offset, width), j) <==> exists i: nat :: i < width && i % 64 == j && BitAt(bytes, Pos(offset, i))
  {
    if width == 0 {
      ZeroHasNoBits(j);
    } else {
      FieldBits(bytes, offset, width - 1, j);
      var v := Field(bytes, offset, width - 1);
      OrBitAt(v, (width - 1) % 64, j);
      if BitAt(bytes, Pos(offset, width - 1)) && j == (width - 1) % 64 {
        var i := width - 1;
        assert i < width && i % 64 == j && BitAt(bytes, Pos(offset, i));
      }
      if i: nat :| i < width && i % 64 == j && BitAt(bytes, Pos(offset, i)) {
        if i < width - 1 {
          assert i < width - 1 && i % 64 == j && BitAt(bytes, Pos(offset, i));
        }
      }
    }
  }

  lemma {:induction false} FieldBound(bytes: Bytes, offset: nat, width: nat)
    ensures Field(bytes, offset, width) < Pow2(64)
  {
    if width > 0 {
      FieldBound(bytes, offset, width - 1);
      OrBitBound(Field(bytes, offset, width - 1), (width - 1) % 64, 64);
    }
  }

  lemma {:induction false} ZeroHasNoBits(j: nat)
    ensures !BitOf(0, j)
  {
    if j > 0 {
      ZeroHasNoBits(j - 1);
    }
  }

  /** The vector after setting the bits of a field from the bits of `val`. */
  function WithField(bytes: Bytes, offset: nat, width: nat, val: nat): Bytes {
    if width == 0 then bytes
    else SetBit(WithField(bytes, offset, width - 1, val), Pos(offset, width - 1), BitOf(val, (width - 1) % 64))
  }

  /** Writing a field sets exactly its own bits and leaves every other bit as it was. */
  lemma {:induction false} WithFieldAt(bytes: Bytes, offset: nat, width: nat, val: nat, p: nat)
    requires offset < Words.U32 && width <= Words.U32
    ensures BitAt(WithField(bytes, offset, width, val), p)
         == if Inside(offset, width, p) then BitOf(val, (p - offset) % Words.U32 % 64) else BitAt(bytes, p)
  {
    if width > 0 {
      WithFieldAt(bytes, offset, width - 1, val, p);
      SetBitAt(WithField(bytes, offset, width - 1, val), Pos(offset, width - 1), BitOf(val, (width - 1) % 64), p);
      if p < Words.U32 {
        PosInverse(offset, width - 1, p);
      }
    }
  }

  /** The low `width` bits of a number. */
  function LowBits(v: nat, width: nat): nat {
    if width == 0 then 0 else LowBits(v, width - 1) + if BitOf(v, width - 1) then Pow2(width - 1) else 0
  }

  lemma {:induction false} LowBitsFirst(v: nat, width: nat)
    requires width > 0
    ensures LowBits(v, width) == v % 2 + 2 * LowBits(v / 2, width - 1)
  {
    if width == 1 {
      assert LowBits(v, 0) == 0 && LowBits(v / 2, 0) == 0;
    } else {
      LowBitsFirst(v, width - 1);
    }
  }

  lemma ModUnique(v: nat, m: nat, q: nat, r: nat)
    requires m > 0 && r < m && v == m * q + r
    ensures v % m == r
  {
    var d, e := v / m, v % m;
    assert v == m * d + e;
    if q < d {
      MulAtLeast(d - q, 1, m);
      Distribute(m, d, q);
    } else if d < q {
      MulAtLeast(q - d, 1, m);
      Distribute(m, q, d);
    }
  }

  lemma Distribute(m: int, a: int, b: int)
    ensures m * (a - b) == m * a - m * b
  {
  }

  lemma ModTwice(v: nat, p: nat)
    requires p > 0
    ensures v % (2 * p) == v % 2 + 2 * (v / 2 % p)
  {
    var q, r := v / 2 / p, v / 2 % p;
    assert v / 2 == p * q + r;
    assert v == 2 * (v / 2) + v % 2;
    assert (2 * p) * q == 2 * (p * q);
    ModUnique(v, 2 * p, q, 2 * r + v % 2);
  }

  lemma {:induction false} LowBitsIsMod(v: nat, width: nat)
    ensures LowBits(v, width) == v % Pow2(width)
  {
    if width > 0 {
      LowBitsFirst(v, width);
      LowBitsIsMod(v / 2, width - 1);
      ModTwice(v, Pow2(width - 1));
    }
  }

  lemma {:induction false} LowBitsBound(v: nat, n: nat)
    ensures LowBits(v, n) < Pow2(n)
  {
    if n > 0 {
      LowBitsBound(v, n - 1);
    }
  }

  lemma {:induction false} LowBitsAt(v: nat, n: nat, j: nat)
    requires j < n
    ensures BitOf(LowBits(v, n), j) == BitOf(v, j)
  {
    LowBitsFirst(v, n);
    if j > 0 {
      LowBitsAt(v / 2, n - 1, j - 1);
    }
  }

  lemma OrLowBit(val: nat, n: nat)
    ensures var before := LowBits(val, Min(n, 64));
            (if BitOf(val, n % 64) then OrBit(before, n % 64) else before) == LowBits(val, Min(n + 1, 64))
  {
    if n < 64 {
      LowBitsBound(val, n);
      HighBitsClear(LowBits(val, n), n);
    } else {
      LowBitsAt(val, 64, n % 64);
    }
  }

  /** A vector that holds the bits of a number at the positions of a field reads as that number. */
  lemma {:induction false} FieldOfBits(bytes: Bytes, offset: nat, val: nat, n: nat)
    requires forall i: nat :: i < n ==> BitAt(bytes, Pos(offset, i)) == BitOf(val, i % 64)
    ensures Field(bytes, offset, n) == LowBits(val, Min(n, 64))
  {
    if n > 0 {
      FieldOfBits(bytes, offset, val, n - 1);
      OrLowBit(val, n - 1);
    }
  }

  /** Up to 64 bits, each bit of the field is one bit of the vector. */
  lemma {:induction false} FieldBit(bytes: Bytes, offset: nat, n: nat, i: nat)
    requires i < n <= 64
    ensures BitOf(Field(bytes, offset, n), i) == BitAt(bytes, Pos(offset, i))
  {
    FieldBits(bytes, offset, n, i);
    assert forall j: nat :: j < n ==> j % 64 == j;
  }

  lemma {:induction false} FieldBitDiffers(bytes: Bytes, offset: nat, val: nat, n: nat, i: nat)
    requires i < n <= 64 && BitAt(bytes, Pos(offset, i)) != BitOf(val, i)
    ensures Field(bytes, offset, n) != LowBits(val, n)
  {
    FieldBit(bytes, offset, n, i);
    LowBitsAt(val, n, i);
  }

  lemma {:induction false} FieldReadsExactly(bytes: Bytes, offset: nat, val: nat, n: nat)
    requires n <= 64
    ensures Field(bytes, offset, n) == LowBits(val, n)
            <==> forall i: nat :: i < n ==> BitAt(bytes, Pos(offset, i)) == BitOf(val, i)
  {
    if i: nat :| i < n && BitAt(bytes, Pos(offset, i)) != BitOf(val, i) {
      FieldBitDiffers(bytes, offset, val, n, i);
    } else {
      forall i: nat | i < n
        ensures BitAt(bytes, Pos(offset, i)) == BitOf(val, i % 64)
      {
        assert i % 64 == i;
      }
      FieldOfBits(bytes, offset, val, n);
    }
  }

  lemma {:induction false} EmptyField(offset: nat, n: nat)
    ensures Field([], offset, n) == 0
  {
    if n > 0 {
      EmptyField(offset, n - 1);
    }
  }

  lemma {:induction false} OwnBit(bytes: Bytes, offset: nat, width: nat, val: nat, i: nat)
    requires offset < Words.U32 && i < width <= Words.U32
    ensures BitAt(WithField(bytes, offset, width, val), Pos(offset, i)) == BitOf(val, i % 64)
  {
    PosInverse(offset, i, Pos(offset, i));
    WithFieldAt(bytes, offset, width, val, Pos(offset, i));
  }

  /** A field reads back as the value written, modulo 2^width, whatever its width and even if its
      positions wrap around. */
  lemma {:induction false} FieldRoundTrip(bytes: Bytes, offset: nat, width: nat, val: nat)
    requires offset < Words.U32 && width <= Words.U32
    ensures Field(WithField(bytes, offset, width, val), offset, width) == val % Pow2(Min(width, 64))
  {
    var after := WithField(bytes, offset, width, val);
    forall i: nat | i < width
      ensures BitAt(after, Pos(offset, i)) == BitOf(val, i % 64)
    {
      OwnBit(bytes, offset, width, val, i);
    }
    FieldOfBits(after, offset, val, width);
    LowBitsIsMod(val, Min(width, 64));
  }

  /** Fields that share no position do not disturb each other. */
  lemma {:induction false} FieldsApart(bytes: Bytes, offset: nat, width: nat, val: nat, other: nat, n: nat)
    requires offset < Words.U32 && width <= Words.U32
    requires forall i: nat :: i < n ==> !Inside(offset, width, Pos(other, i))
    ensures Field(WithField(bytes, offset, width, val), other, n) == Field(bytes, other, n)
  {
    if n > 0 {
      FieldsApart(bytes, offset, width, val, other, n - 1);
      WithFieldAt(bytes, offset, width, val, Pos(other, n - 1));
    }
  }
}
