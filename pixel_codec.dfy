/** The value encoder: how one `long` becomes one ARGB pixel, and how a client
    reads it back. The server writes an `int` pixel whose bytes, read in R, G,
    B, A order, spell the value's low 32 bits from the most significant byte
    down; in the ARGB word that is the value's low word rotated right by 8. */
module PixelCodec {
  import opened JavaBits

  /** Main.pixelValueFor: `(int) ((value << 24) | ((value >> 8) & 0xFFFFFF))`.
      It sees only the low 32 bits of its argument and rotates them right by 8:
      a negative value is encoded through its two's-complement pattern, never
      rejected. */
  function PixelValueFor(value: Long): (pixel: Int)
    ensures IntBits(pixel) == RotateRight8(value % TwoTo32)
  {
    var high := ShiftLeftLong(value, 24);
    var low := AndLong(ShiftRightLong(value, 8), 0xFF_FFFF);
    ShiftLeft24Bits(value);
    LowMask24Bits(value);
    EncoderHalves(value, high, low);
    LongToInt(OrLong(high, low))
  }

  /** The client's decoder: `(pixel << 8) | ((pixel >> 24) & 0xFF)`, evaluated
      in `int` arithmetic (the `long` it is assigned to receives the same value,
      sign-extended). It rotates the pixel's bit pattern left by 8. */
  function DecodePixel(pixel: Int): (value: Int)
    ensures IntBits(value) == RotateLeft8(IntBits(pixel))
  {
    var high := ShiftLeftInt(pixel, 8);
    var low := AndInt(ShiftRightInt(pixel, 24), 0xFF);
    ShiftLeft8Bits(pixel);
    HighByteBits(pixel);
    DecoderHalves(pixel, high, low);
    OrInt(high, low)
  }

  /** Reference definition: a 32-bit word rotated right by 8 bits, so that its
      lowest byte becomes its highest. */
  function RotateRight8(w: Word32): (r: Word32)
  {
    (w % TwoTo8) * TwoTo24 + w / TwoTo8
  }

  /** Reference definition: a 32-bit word rotated left by 8 bits. */
  function RotateLeft8(w: Word32): (r: Word32)
  {
    (w % TwoTo24) * TwoTo8 + w / TwoTo24
  }

  /** The two rotations undo each other. */
  lemma RotationsInverse(w: Word32)
    ensures RotateLeft8(RotateRight8(w)) == w
    ensures RotateRight8(RotateLeft8(w)) == w
  {
    var r := RotateRight8(w);
    assert w / TwoTo8 < TwoTo24;
    DivModUnique(r, TwoTo24, w % TwoTo8, w / TwoTo8);
    var l := RotateLeft8(w);
    assert w / TwoTo24 < TwoTo8;
    DivModUnique(l, TwoTo8, w % TwoTo24, w / TwoTo24);
  }

  /** The two halves the encoder ORs together, `value << 24` and
      `(value >> 8) & 0xFFFFFF`, make up the rotated word in their low 32 bits. */
  lemma EncoderHalves(value: Long, high: Long, low: Long)
    requires LongBits(high) == (LongBits(value) % 0x100_0000_0000) * TwoTo24
    requires LongBits(low) == (value / TwoTo8) % TwoTo24
    ensures OrLong(high, low) % TwoTo32 == RotateRight8(value % TwoTo32)
  {
    var top := LongBits(value) % 0x100_0000_0000;
    OrDisjointLong(high, low, top);
    PixelWordArithmetic(value, top, LongBits(low));
    LowWordOfBits(OrLong(high, low), top * TwoTo24 + LongBits(low), RotateRight8(value % TwoTo32));
  }

  /** The low 32 bits of a `long` are the low 32 bits of its bit pattern. */
  lemma LowWordOfBits(x: Long, u: nat, w: int)
    requires LongBits(x) == u && u % TwoTo32 == w
    ensures x % TwoTo32 == w
  {
    ModOfMod(x, TwoTo32, TwoTo32);
  }

  /** The bit pattern of `value << 24`: bits 0..39 of value, moved up 24 places. */
  lemma ShiftLeft24Bits(value: Long)
    ensures LongBits(ShiftLeftLong(value, 24)) == (LongBits(value) % 0x100_0000_0000) * TwoTo24
  {
    PowersOfTwo();
  }

  /** The bit pattern of `(value >> 8) & 0xFFFFFF`: bits 8..31 of value. */
  lemma LowMask24Bits(value: Long)
    ensures LongBits(AndLong(ShiftRightLong(value, 8), 0xFF_FFFF)) == (value / TwoTo8) % TwoTo24
  {
    PowersOfTwo();
    AndLongLow24(ShiftRightLong(value, 8));
  }

  /** The two halves of the encoder share no bit, so OR adds them. */
  lemma OrDisjointLong(high: Long, low: Long, top: nat)
    requires LongBits(high) == top * TwoTo24 && LongBits(low) < TwoTo24
    ensures LongBits(OrLong(high, low)) == top * TwoTo24 + LongBits(low)
  {
    PowersOfTwo();
    OrDisjoint(top, LongBits(low), 24);
  }

  /** Truncating the assembled `long` to 32 bits leaves the rotated word. */
  lemma PixelWordArithmetic(value: Long, top: nat, low: nat)
    requires top == LongBits(value) % 0x100_0000_0000 && low == (value / TwoTo8) % TwoTo24
    ensures (top * TwoTo24 + low) % TwoTo32 == RotateRight8(value % TwoTo32)
  {
    DropHighBytes(top, low);
    ModOfMod(value, 0x100_0000_0000, 0x100_0000);
    ModOfMod(value, TwoTo8, 0x1_0000_0000);
    ModOfMod(value, TwoTo8, TwoTo24);
    WordShift8(value);
  }

  /** Truncating to 32 bits keeps only the low byte of the part above bit 24. */
  lemma DropHighBytes(top: nat, low: nat)
    requires low < TwoTo24
    ensures (top * TwoTo24 + low) % TwoTo32 == (top % TwoTo8) * TwoTo24 + low
  {
    var q, r := top / TwoTo8, top % TwoTo8;
    assert top * TwoTo24 + low == q * TwoTo32 + (r * TwoTo24 + low);
    DivModUnique(top * TwoTo24 + low, TwoTo32, q, r * TwoTo24 + low);
  }

  /** Bits 8..31 of a value, read from its low word or from its arithmetic
      shift by 8. */
  lemma WordShift8(value: int)
    ensures (value % TwoTo32) / TwoTo8 == (value / TwoTo8) % TwoTo24
  {
    var a, w := value / TwoTo32, value % TwoTo32;
    assert value == a * TwoTo32 + w;
    assert w / TwoTo8 < TwoTo24;
    DivModUnique(value, TwoTo8, a * TwoTo24 + w / TwoTo8, w % TwoTo8);
    DivModUnique(value / TwoTo8, TwoTo24, a, w / TwoTo8);
  }

  /** The two halves the decoder ORs together, `pixel << 8` and
      `(pixel >> 24) & 0xFF`, make up the word rotated left by 8. */
  lemma DecoderHalves(pixel: Int, high: Int, low: Int)
    requires IntBits(high) == (IntBits(pixel) % TwoTo24) * TwoTo8
    requires IntBits(low) == IntBits(pixel) / TwoTo24
    ensures IntBits(OrInt(high, low)) == RotateLeft8(IntBits(pixel))
  {
    var w := IntBits(pixel);
    PowersOfTwo();
    OrDisjoint(w % TwoTo24, IntBits(low), 8);
  }

  /** The bit pattern of `pixel << 8`: bits 0..23 of pixel, moved up 8 places. */
  lemma ShiftLeft8Bits(pixel: Int)
    ensures IntBits(ShiftLeftInt(pixel, 8)) == (IntBits(pixel) % TwoTo24) * TwoTo8
  {
    PowersOfTwo();
  }

  /** The bit pattern of `(pixel >> 24) & 0xFF`: bits 24..31 of pixel, whatever
      the sign bit that the arithmetic shift copies in. */
  lemma HighByteBits(pixel: Int)
    ensures IntBits(AndInt(ShiftRightInt(pixel, 24), 0xFF)) == IntBits(pixel) / TwoTo24
  {
    PowersOfTwo();
    var top := ShiftRightInt(pixel, 24);
    AndIntLow8(top);
    HighByteArithmetic(pixel);
  }

  lemma HighByteArithmetic(pixel: Int)
    ensures (pixel / TwoTo24) % TwoTo8 == (pixel % TwoTo32) / TwoTo24
  {
    if pixel < 0 {
      assert pixel % TwoTo32 == pixel + TwoTo32;
      assert (pixel + TwoTo32) / TwoTo24 == pixel / TwoTo24 + TwoTo8;
    }
  }

  /** Decoding an encoded value gives back the value cast to `int`: its low
      32 bits, read as a signed word. */
  lemma RoundTrip(value: Long)
    ensures DecodePixel(PixelValueFor(value)) == LongToInt(value)
  {
    var pixel := PixelValueFor(value);
    RotationsInverse(value % TwoTo32);
    IntBitsInjective(DecodePixel(pixel), LongToInt(value));
  }

  /** Every unsigned 32-bit value, in particular every unix time the service
      accepts, survives the round trip bit for bit as a 32-bit word. */
  lemma RoundTripUnsigned(v: Long)
    requires 0 <= v <= MaxUnsignedInt
    ensures IntBits(DecodePixel(PixelValueFor(v))) == v
  {
    RoundTrip(v);
    LowWordOfUnsigned(v, DecodePixel(PixelValueFor(v)));
  }

  lemma LowWordOfUnsigned(v: Long, d: Int)
    requires 0 <= v <= MaxUnsignedInt && d == LongToInt(v)
    ensures IntBits(d) == v
  {
  }

  /** Every value that fits an `int`, in particular every UTC offset, comes back
      exactly, sign included. */
  lemma RoundTripSigned(v: Long)
    requires -TwoTo31 <= v < TwoTo31
    ensures DecodePixel(PixelValueFor(v)) == v
  {
    RoundTrip(v);
    LongToIntFits(v);
  }

  /** Read as a signed `int`, as the decoder does before widening to `long`, a
      unix time from 2^31 on (January 2038 onwards) comes back 2^32 too small. */
  lemma SignedDecodeWrapsAfter2038(v: Long)
    requires TwoTo31 <= v <= MaxUnsignedInt
    ensures DecodePixel(PixelValueFor(v)) == v - TwoTo32
  {
    RoundTrip(v);
    WrapOfHighUnsigned(v, DecodePixel(PixelValueFor(v)));
  }

  lemma WrapOfHighUnsigned(v: Long, d: Int)
    requires TwoTo31 <= v <= MaxUnsignedInt && d == LongToInt(v)
    ensures d == v - TwoTo32
  {
    assert IntBits(v - TwoTo32) == v;
    IntBitsInjective(d, v - TwoTo32);
  }

  /** The instant 2007-08-31T00:00:00Z, unix time 1188518400, is written as
      the pixel 0x0046D75A and read back unchanged. */
  lemma EncodesTestInstant()
    ensures IntBits(PixelValueFor(1188518400)) == 0x0046_D75A
    ensures DecodePixel(PixelValueFor(1188518400)) == 1188518400
  {
    assert RotateRight8(1188518400) == 0x0046_D75A;
    RoundTripSigned(1188518400);
  }
}
