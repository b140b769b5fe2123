/** Java's 64-bit `long` and 32-bit `int` arithmetic, stated over unbounded
    integers. A Java value is held as its signed value; its two's-complement bit
    pattern is the non-negative residue modulo 2^64 (or 2^32), and `&` and `|`
    are defined bit by bit on those patterns. */
module JavaBits {

  const TwoTo8: int := 0x100
  const TwoTo24: int := 0x100_0000
  const TwoTo31: int := 0x8000_0000
  const TwoTo32: int := 0x1_0000_0000
  const TwoTo63: int := 0x8000_0000_0000_0000
  const TwoTo64: int := 0x1_0000_0000_0000_0000

  /** The largest unsigned 32-bit value (Main.MAX_UNSIGNED_INT). */
  const MaxUnsignedInt: int := 0xFFFF_FFFF

  /** The largest `int` (Integer.MAX_VALUE), the bound on array lengths. */
  const MaxInt: int := 0x7FFF_FFFF

  /** A Java `long`. */
  type Long = x: int | -0x8000_0000_0000_0000 <= x < 0x8000_0000_0000_0000

  /** A Java `int`. */
  type Int = x: int | -0x8000_0000 <= x < 0x8000_0000

  /** The bit pattern of a `long`, read as an unsigned number. */
  type Word64 = x: int | 0 <= x < 0x1_0000_0000_0000_0000

  /** The bit pattern of an `int`, read as an unsigned number. */
  type Word32 = x: int | 0 <= x < 0x1_0000_0000

  function Pow2(k: nat): (r: nat)
    ensures r >= 1
  {
    if k == 0 then 1 else 2 * Pow2(k - 1)
  }

  /** Bitwise AND of two bit patterns. */
  function BitAnd(a: nat, b: nat): (r: nat)
    ensures r <= a && r <= b
    decreases a
  {
    if a == 0 || b == 0 then 0
    else 2 * BitAnd(a / 2, b / 2) + (if a % 2 == 1 && b % 2 == 1 then 1 else 0)
  }

  /** Bitwise OR of two bit patterns. */
  function BitOr(a: nat, b: nat): (r: nat)
    ensures a <= r && b <= r && r <= a + b
    decreases a
  {
    if a == 0 then b
    else if b == 0 then a
    else 2 * BitOr(a / 2, b / 2) + (if a % 2 == 1 || b % 2 == 1 then 1 else 0)
  }

  /** x & (2^k - 1) keeps the low k bits, that is, x mod 2^k. */
  lemma {:induction false} AndLowMask(x: nat, k: nat)
    ensures BitAnd(x, Pow2(k) - 1) == x % Pow2(k)
  {
    if k > 0 && x > 0 {
      AndLowMask(x / 2, k - 1);
      AndLowMaskStep(x, Pow2(k - 1));
    } else if x == 0 {
      DivModUnique(0, Pow2(k), 0, 0);
    } else {
      DivModUnique(x, 1, x, 0);
    }
  }

  /** One bit more: the claim for x / 2 and 2^(k-1) gives it for x and 2^k. */
  lemma AndLowMaskStep(x: nat, p: nat)
    requires x > 0 && p >= 1
    requires BitAnd(x / 2, p - 1) == (x / 2) % p
    ensures BitAnd(x, 2 * p - 1) == x % (2 * p)
  {
    AndOddMask(x, p);
    HalveMod(x, p);
  }

  /** One step of BitAnd against the mask 2p - 1, whose low bit is set. */
  lemma AndOddMask(x: nat, p: nat)
    requires x > 0 && p >= 1
    ensures BitAnd(x, 2 * p - 1) == 2 * BitAnd(x / 2, p - 1) + x % 2
  {
    var m := 2 * p - 1;
    assert m / 2 == p - 1 && m % 2 == 1 by {
      DivModUnique(m, 2, p - 1, 1);
    }
  }

  /** x mod 2p splits into the low bit and (x / 2) mod p. */
  lemma HalveMod(x: nat, p: nat)
    requires p >= 1
    ensures x % (2 * p) == 2 * ((x / 2) % p) + x % 2
  {
    var q := (x / 2) / p;
    var r := (x / 2) % p;
    assert x / 2 == q * p + r;
    assert x == 2 * (x / 2) + x % 2;
    assert x == (2 * p) * q + (2 * r + x % 2);
    DivModUnique(x, 2 * p, q, 2 * r + x % 2);
  }

  /** Quotient and remainder are determined by k == q * d + r with 0 <= r < d. */
  lemma DivModUnique(k: int, d: int, q: int, r: int)
    requires d > 0 && 0 <= r < d && k == q * d + r
    ensures k / d == q && k % d == r
  {
    var q', r' := k / d, k % d;
    assert k == q' * d + r';
    if q' < q {
      MulMonotone(q - q', d);
      assert false;
    } else if q' > q {
      MulMonotone(q' - q, d);
      assert false;
    }
  }

  /** Reducing modulo a multiple of a first does not change the residue mod a. */
  lemma ModOfMod(x: int, a: int, b: int)
    requires a > 0 && b > 0
    ensures (x % (a * b)) % a == x % a
  {
    var q, r := x / (a * b), x % (a * b);
    assert x == q * (a * b) + r;
    assert r == (r / a) * a + r % a;
    assert x == (q * b + r / a) * a + r % a;
    DivModUnique(x, a, q * b + r / a, r % a);
  }

  /** Scaling by p carries a residue modulo m to the residue modulo m * p. */
  lemma MulMod(u: int, m: int, p: int)
    requires m > 0 && p > 0
    ensures (u * p) % (m * p) == (u % m) * p
  {
    var q, r := u / m, u % m;
    assert u * p == q * (m * p) + r * p by {
      assert u == q * m + r;
    }
    MulMonotoneRight(r + 1, m, p);
    DivModUnique(u * p, m * p, q, r * p);
  }

  /** Multiplying both sides of a <= b by a non-negative c. */
  lemma MulMonotoneRight(a: int, b: int, c: int)
    requires 0 <= a <= b && c >= 0
    ensures 0 <= a * c <= b * c
  {
  }

  lemma {:induction false} MulMonotone(m: int, d: int)
    requires m >= 1 && d > 0
    ensures m * d >= d
    decreases m
  {
    if m > 1 {
      MulMonotone(m - 1, d);
      assert m * d == (m - 1) * d + d;
    }
  }

  /** OR of a pattern shifted left by k and a pattern below 2^k is their sum:
      the two have no bit in common. */
  lemma {:induction false} OrDisjoint(a: nat, b: nat, k: nat)
    requires b < Pow2(k)
    ensures BitOr(a * Pow2(k), b) == a * Pow2(k) + b
  {
    if k > 0 && a > 0 && b > 0 {
      var p := Pow2(k - 1);
      assert a * Pow2(k) == 2 * (a * p);
      assert (a * Pow2(k)) / 2 == a * p && (a * Pow2(k)) % 2 == 0;
      OrDisjoint(a, b / 2, k - 1);
    }
  }

  /** OR never sets a bit at or above 2^k when neither operand does. */
  lemma {:induction false} OrBelow(a: nat, b: nat, k: nat)
    requires a < Pow2(k) && b < Pow2(k)
    ensures BitOr(a, b) < Pow2(k)
  {
    if k > 0 && a > 0 && b > 0 {
      OrBelow(a / 2, b / 2, k - 1);
    }
  }

  lemma {:induction false} Pow2Add(a: nat, b: nat)
    ensures Pow2(a + b) == Pow2(a) * Pow2(b)
  {
    if a > 0 {
      Pow2Add(a - 1, b);
    }
  }

  lemma PowersOfTwo()
    ensures Pow2(8) == TwoTo8 && Pow2(24) == TwoTo24
    ensures Pow2(32) == TwoTo32 && Pow2(40) == 0x100_0000_0000
    ensures Pow2(64) == TwoTo64
  {
    assert Pow2(8) == 0x100;
    Pow2Add(8, 8);
    Pow2Add(16, 8);
    Pow2Add(16, 16);
    Pow2Add(32, 8);
    Pow2Add(32, 32);
  }

  lemma Pow2Of31()
    ensures Pow2(31) == TwoTo31
  {
    assert Pow2(7) == 0x80;
    assert Pow2(8) == 0x100;
    Pow2Add(8, 8);
    Pow2Add(16, 8);
    Pow2Add(24, 7);
  }

  lemma Pow2Of63()
    ensures Pow2(63) == TwoTo63
  {
    Pow2Of31();
    PowersOfTwo();
    Pow2Add(32, 31);
  }

  // ---- long ----

  /** The two's-complement bit pattern of a `long`. */
  function LongBits(v: Long): (u: Word64)
    ensures u % TwoTo64 == v % TwoTo64
  {
    v % TwoTo64
  }

  /** The `long` whose bit pattern is u. */
  function LongOf(u: Word64): (v: Long)
    ensures LongBits(v) == u
  {
    if u < TwoTo63 then u else u - TwoTo64
  }

  /** `v << k` on a `long`: the low 64 - k bits move up k places, and the
      bits shifted out at the top are lost. */
  function ShiftLeftLong(v: Long, k: nat): (r: Long)
    requires k < 64
    ensures LongBits(r) == (LongBits(v) % Pow2(64 - k)) * Pow2(k)
  {
    PowersOfTwo();
    Pow2Add(64 - k, k);
    MulMod(LongBits(v), Pow2(64 - k), Pow2(k));
    LongOf((LongBits(v) * Pow2(k)) % TwoTo64)
  }

  /** `v >> k` on a `long`: the arithmetic shift, which copies the sign bit
      and so rounds toward negative infinity. */
  function ShiftRightLong(v: Long, k: nat): (r: Long)
    requires k < 64
    ensures v >= 0 ==> 0 <= r <= v
    ensures v < 0 ==> v <= r < 0
  {
    DivShrinks(v, Pow2(k));
    v / Pow2(k)
  }

  /** `>>` on a `long` is floor division by 2^k: the result is the largest r
      with r * 2^k <= v, so a negative value rounds toward negative infinity
      (`-257 >> 8` is -2, not the truncated -1). */
  lemma ShiftRightLongFloor(v: Long, k: nat)
    requires k < 64
    ensures ShiftRightLong(v, k) * Pow2(k) <= v < (ShiftRightLong(v, k) + 1) * Pow2(k)
  {
    DivFloor(v, Pow2(k));
  }

  /** Euclidean division by a positive divisor is floor division. */
  lemma DivFloor(v: int, d: int)
    requires d >= 1
    ensures (v / d) * d <= v < (v / d + 1) * d
  {
    var q, m := v / d, v % d;
    assert v == q * d + m && 0 <= m < d;
    assert (q + 1) * d == q * d + d;
  }

  /** The offset of one hour west of UTC, shifted as the encoder shifts it:
      `-3600 >> 8` is -15, where truncating division would give -14. */
  lemma ShiftRightLongNegativeOffset()
    ensures ShiftRightLong(-3600, 8) == -15
    ensures ShiftRightLong(-257, 8) == -2
  {
    PowersOfTwo();
  }

  lemma DivShrinks(v: int, d: int)
    requires d >= 1
    ensures v >= 0 ==> 0 <= v / d <= v
    ensures v < 0 ==> v <= v / d < 0
  {
    var q, r := v / d, v % d;
    assert v == q * d + r && 0 <= r < d;
    MulBounds(q, d);
  }

  /** Multiplying by a positive number moves away from zero. */
  lemma MulBounds(q: int, d: int)
    requires d >= 1
    ensures q >= 0 ==> q <= q * d
    ensures q < 0 ==> q * d <= q - (d - 1)
  {
    if q >= 0 {
      NonNegativeProduct(q, d - 1);
      assert q * d == q + q * (d - 1);
    } else {
      NonNegativeProduct(-q - 1, d - 1);
      assert q * d == q - (d - 1) - (-q - 1) * (d - 1);
    }
  }

  lemma NonNegativeProduct(a: int, b: int)
    requires a >= 0 && b >= 0
    ensures a * b >= 0
  {
  }

  /** `a & b` on `long`s: masking with a non-negative value gives a value
      between 0 and that mask. */
  function AndLong(a: Long, b: Long): (r: Long)
    ensures 0 <= a ==> 0 <= r <= a
    ensures 0 <= b ==> 0 <= r <= b
  {
    OwnBitsLong(a);
    OwnBitsLong(b);
    LongOf(BitAnd(LongBits(a), LongBits(b)))
  }

  /** A non-negative `long` is its own bit pattern. */
  lemma OwnBitsLong(a: Long)
    ensures 0 <= a ==> LongBits(a) == a
  {
    if 0 <= a {
      DivModUnique(a, TwoTo64, 0, a);
    }
  }

  /** `a | b` on `long`s: on non-negative operands, at least either operand
      and at most their sum. */
  function OrLong(a: Long, b: Long): (r: Long)
    ensures 0 <= a && 0 <= b ==> a <= r && b <= r && r <= a + b
  {
    PowersOfTwo();
    OrBelow(LongBits(a), LongBits(b), 64);
    OrLongNonNegative(a, b);
    LongOf(BitOr(LongBits(a), LongBits(b)))
  }

  /** OR of two non-negative `long`s is a non-negative `long`. */
  lemma OrLongNonNegative(a: Long, b: Long)
    ensures 0 <= a && 0 <= b ==> LongBits(a) == a && LongBits(b) == b && BitOr(a, b) < TwoTo63
  {
    if 0 <= a && 0 <= b {
      OwnBitsLong(a);
      OwnBitsLong(b);
      Pow2Of63();
      OrBelow(a, b, 63);
    }
  }

  /** The narrowing cast `(int) v`: keeps exactly the low 32 bits. */
  function LongToInt(v: Long): (r: Int)
    ensures IntBits(r) == v % TwoTo32
  {
    ModOfMod(v, TwoTo32, TwoTo32);
    IntOf(LongBits(v) % TwoTo32)
  }

  // ---- int ----

  /** The two's-complement bit pattern of an `int`. */
  function IntBits(v: Int): (u: Word32)
    ensures u % TwoTo32 == v % TwoTo32
  {
    v % TwoTo32
  }

  /** The `int` whose bit pattern is u. */
  function IntOf(u: Word32): (v: Int)
    ensures IntBits(v) == u
  {
    if u < TwoTo31 then u else u - TwoTo32
  }

  /** `v << k` on an `int`: the low 32 - k bits move up k places. */
  function ShiftLeftInt(v: Int, k: nat): (r: Int)
    requires k < 32
    ensures IntBits(r) == (IntBits(v) % Pow2(32 - k)) * Pow2(k)
  {
    PowersOfTwo();
    Pow2Add(32 - k, k);
    MulMod(IntBits(v), Pow2(32 - k), Pow2(k));
    IntOf((IntBits(v) * Pow2(k)) % TwoTo32)
  }

  /** `v >> k` on an `int`: the arithmetic shift, which copies the sign bit
      and so rounds toward negative infinity. */
  function ShiftRightInt(v: Int, k: nat): (r: Int)
    requires k < 32
    ensures v >= 0 ==> 0 <= r <= v
    ensures v < 0 ==> v <= r < 0
  {
    DivShrinks(v, Pow2(k));
    v / Pow2(k)
  }

  /** `>>` on an `int` is floor division by 2^k, rounding toward negative
      infinity. */
  lemma ShiftRightIntFloor(v: Int, k: nat)
    requires k < 32
    ensures ShiftRightInt(v, k) * Pow2(k) <= v < (ShiftRightInt(v, k) + 1) * Pow2(k)
  {
    DivFloor(v, Pow2(k));
  }

  /** `a & b` on `int`s: masking with a non-negative value gives a value
      between 0 and that mask. */
  function AndInt(a: Int, b: Int): (r: Int)
    ensures 0 <= a ==> 0 <= r <= a
    ensures 0 <= b ==> 0 <= r <= b
  {
    OwnBitsInt(a);
    OwnBitsInt(b);
    IntOf(BitAnd(IntBits(a), IntBits(b)))
  }

  /** A non-negative `int` is its own bit pattern. */
  lemma OwnBitsInt(a: Int)
    ensures 0 <= a ==> IntBits(a) == a
  {
    if 0 <= a {
      DivModUnique(a, TwoTo32, 0, a);
    }
  }

  /** `a | b` on `int`s: on non-negative operands, at least either operand
      and at most their sum. */
  function OrInt(a: Int, b: Int): (r: Int)
    ensures 0 <= a && 0 <= b ==> a <= r && b <= r && r <= a + b
  {
    PowersOfTwo();
    OrBelow(IntBits(a), IntBits(b), 32);
    OrIntNonNegative(a, b);
    IntOf(BitOr(IntBits(a), IntBits(b)))
  }

  /** OR of two non-negative `int`s is a non-negative `int`. */
  lemma OrIntNonNegative(a: Int, b: Int)
    ensures 0 <= a && 0 <= b ==> IntBits(a) == a && IntBits(b) == b && BitOr(a, b) < TwoTo31
  {
    if 0 <= a && 0 <= b {
      OwnBitsInt(a);
      OwnBitsInt(b);
      Pow2Of31();
      OrBelow(a, b, 31);
    }
  }

  /** An `int` is determined by its bit pattern. */
  lemma IntBitsInjective(a: Int, b: Int)
    requires IntBits(a) == IntBits(b)
    ensures a == b
  {
    assert IntOf(IntBits(a)) == a && IntOf(IntBits(b)) == b;
  }

  /** `(int) v` is v itself when v fits in an `int`. */
  lemma LongToIntFits(v: Long)
    requires -TwoTo31 <= v < TwoTo31
    ensures LongToInt(v) == v
  {
    IntBitsInjective(LongToInt(v), v);
  }
  /** `x & 0xFFFFFF` on a `long` keeps the low 24 bits. */
  lemma AndLongLow24(x: Long)
    ensures LongBits(AndLong(x, 0xFF_FFFF)) == x % TwoTo24
  {
    PowersOfTwo();
    AndLowMask(LongBits(x), 24);
    ModOfMod(x, TwoTo24, 0x100_0000_0000);
  }

  /** `x & 0xFF` on an `int` keeps the low 8 bits. */
  lemma AndIntLow8(x: Int)
    ensures IntBits(AndInt(x, 0xFF)) == x % TwoTo8
  {
    PowersOfTwo();
    AndLowMask(IntBits(x), 8);
    ModOfMod(x, TwoTo8, TwoTo24);
  }
}
