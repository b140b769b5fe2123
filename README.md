# noclocks-service, modelled in Dafny

noclocks-service is an HTTP service. It sends clock and time-zone data to
clients that can decode an image but cannot parse text. Every value it reports
is a unix time or a UTC offset. Each value becomes one 32-bit ARGB pixel, and
the pixels are laid out as square blocks side by side in a PNG.

This project models the core of `src/main/java/Main.java`:

- the value encoder `pixelValueFor`. Java's `long` and `int` shifts, masks and
  narrowing cast are written out over unbounded integers (module `JavaBits`);
- the decoder the client applies, taken from the test in
  `src/test/java/MainTest.java`;
- `getUnixTime`, with its range check against `MAX_UNSIGNED_INT`;
- the precedence in `getNow`: the `now` query parameter, then the
  `X-Request-Start` header, then the clock;
- `getSize`, which clamps the `size` parameter to 1..128;
- the fill loop of `sendValuesAsImage`, which lays the blocks out in the raster;
- the value arrays of the `/api/1/utc` and `/api/1/local` routes.

Modules:

- `Wrappers`: `Option` (with Java's `Optional.or` and `orElse`) and `Result`.
- `JavaBits`: two's-complement `long` and `int`, `<<`, `>>`, `&`, `|` and `(int)`.
- `PixelCodec`: the encoder and decoder, with both proved to be 8-bit rotations
  of the low 32-bit word.
- `TimeResolver`: `getUnixTime`, `getNowFromRequestHeader` and `getNow`.
- `BlockSize`: `getSize` and Guava's `Ints.constrainToRange`.
- `ImageAssembler`: the fill loop over a Java array, and the resulting image.
- `Routes`: the two routes, from parsed request inputs to the image.

Two facts about `pixelValueFor` shape the model:

- It masks `(value >> 8)` with `0xFFFFFF`, and the final `(int)` cast drops
  bits 32 to 63 of the assembled `long`.
- It accepts any `long` and encodes its low 32 bits. Nothing range-checks UTC
  offsets before they reach it, so a negative offset goes through as its
  two's-complement pattern.

The client's decoder computes in `int` and only then widens to `long`, so the
widening sign-extends. A unix time from 2^31 onward (January 2038) therefore
reads back 2^32 too small as a `long`, even though its 32-bit pattern survives
exactly. `PixelCodec.SignedDecodeWrapsAfter2038` states this.

## Model

| member | source | states |
|---|---|---|
| `JavaBits.AndLowMask` | src/main/java/Main.java:124 | `x & (2^k - 1)` keeps exactly the low k bits: it equals x mod 2^k |
| `JavaBits.OrDisjoint` | src/main/java/Main.java:124 | OR-ing a value shifted left by k with a value below 2^k adds them, because no bit overlaps |
| `JavaBits.OrBelow` | src/main/java/Main.java:124 | OR of two patterns below 2^k stays below 2^k, so OR on `long` and `int` never leaves the type |
| `JavaBits.ShiftLeftLong` | src/main/java/Main.java:124 | `v << k` on a `long`: the bit pattern is the low 64 - k bits of v moved up k places |
| `JavaBits.ShiftRightLong` | src/main/java/Main.java:124 | `>>` is the arithmetic shift: it keeps the sign and never grows in magnitude |
| `JavaBits.ShiftRightLongFloor` | src/main/java/Main.java:124 | `v >> k` on a `long` is the floor of v / 2^k, so it rounds toward negative infinity |
| `JavaBits.ShiftRightLongNegativeOffset` | src/main/java/Main.java:124 | the encoder's `-3600 >> 8` is -15 and `-257 >> 8` is -2, not the truncated -14 and -1 |
| `JavaBits.AndLong` | src/main/java/Main.java:124 | `a & b` on `long`s: with a non-negative operand the result lies between 0 and that operand |
| `JavaBits.OrLong` | src/main/java/Main.java:124 | OR on non-negative `long`s is at least either operand and at most their sum |
| `JavaBits.LongToInt` | src/main/java/Main.java:124 | the cast `(int)` keeps exactly the low 32 bits of the `long` |
| `JavaBits.LongToIntFits` | src/main/java/Main.java:124 | the cast `(int)` leaves a value that already fits an `int` unchanged |
| `JavaBits.AndLongLow24` | src/main/java/Main.java:124 | `x & 0xFFFFFF` on a `long` keeps the low 24 bits |
| `JavaBits.ShiftLeftInt` | src/test/java/MainTest.java:43 | `v << k` on an `int`: the bit pattern is the low 32 - k bits of v moved up k places |
| `JavaBits.ShiftRightInt` | src/test/java/MainTest.java:43 | `>>` on an `int` keeps the sign and never grows in magnitude |
| `JavaBits.ShiftRightIntFloor` | src/test/java/MainTest.java:43 | `v >> k` on an `int` is the floor of v / 2^k, so it rounds toward negative infinity |
| `JavaBits.AndInt` | src/test/java/MainTest.java:43 | `a & b` on `int`s: with a non-negative operand the result lies between 0 and that operand |
| `JavaBits.OrInt` | src/test/java/MainTest.java:43 | OR on non-negative `int`s is at least either operand and at most their sum |
| `JavaBits.AndIntLow8` | src/test/java/MainTest.java:43 | `x & 0xFF` on an `int` keeps the low 8 bits |
| `PixelCodec.RotationsInverse` | src/test/java/MainTest.java:42-43 | rotating a 32-bit word right by 8 and then left by 8 (and the other way round) gives the word back |
| `PixelCodec.PixelValueFor` | src/main/java/Main.java:122-125 | pixelValueFor depends only on the low 32 bits of its argument and rotates them right by 8 bits, moving the lowest byte (A of RGBA) to the top (A of ARGB) |
| `PixelCodec.DecodePixel` | src/test/java/MainTest.java:42-43 | the client's decoder rotates the pixel's 32-bit word left by 8 bits (ARGB back to RGBA) |
| `PixelCodec.RoundTrip` | src/main/java/Main.java:122-125 | decoding the pixel of any `long` gives that `long` cast to `int` |
| `PixelCodec.RoundTripUnsigned` | src/main/java/Main.java:122-125 | every value in 0..MAX_UNSIGNED_INT, so every accepted unix time, comes back bit for bit as a 32-bit word |
| `PixelCodec.RoundTripSigned` | src/main/java/Main.java:122-125 | every value that fits an `int`, such as a UTC offset, comes back exactly, sign included |
| `PixelCodec.SignedDecodeWrapsAfter2038` | src/test/java/MainTest.java:43 | read as the decoder's sign-extended `long`, a unix time in 2^31..MAX_UNSIGNED_INT comes back as v - 2^32 |
| `PixelCodec.EncodesTestInstant` | src/test/java/MainTest.java:31-45 | 2007-08-31T00:00:00Z (1188518400) is sent as the pixel 0x0046D75A and decodes to 1188518400 |
| `TimeResolver.GetUnixTime` | src/main/java/Main.java:92-98 | succeeds exactly when the seconds lie in 0..MAX_UNSIGNED_INT and then returns them unchanged; otherwise fails and reports the seconds |
| `TimeResolver.UnixTimeMonotonic` | src/main/java/Main.java:92-98 | a later instant never gives an earlier unix time, and every instant between two accepted ones is accepted |
| `TimeResolver.FromEpochMilli` | src/main/java/Main.java:89 | an instant given in milliseconds is at the whole second that is the floor of millis / 1000, negative millis included |
| `TimeResolver.GetNowFromRequestHeader` | src/main/java/Main.java:84-90 | an instant exactly when the X-Request-Start header is present, namely the second that holds its millisecond count |
| `TimeResolver.GetNow` | src/main/java/Main.java:64-68 | the `now` query parameter wins; without it, the request header; without both, the clock |
| `Wrappers.Option.Or` | src/main/java/Main.java:66 | `Optional.or`: a present value is kept, an absent one is replaced by the alternative |
| `Wrappers.Option.OrElse` | src/main/java/Main.java:67 | `Optional.orElseGet`: the value when present, the fallback otherwise |
| `BlockSize.ConstrainToRange` | src/main/java/Main.java:74 | the result lies in [min, max], is the value itself when the value lies there, and otherwise the bound it crossed |
| `BlockSize.GetSize` | src/main/java/Main.java:70-76 | the block size always lies in 1..128; no parameter gives 1; an in-range parameter is used as is; one below or above is clamped to 1 or 128 |
| `ImageAssembler.CellIndex` | src/main/java/Main.java:104-110 | the cell at row y, block i and column x lies inside the size * size * n array |
| `ImageAssembler.CellIndexInverse` | src/main/java/Main.java:104-110 | row, block and column are recovered from a cell's index, so distinct cells have distinct indices |
| `ImageAssembler.CellDecomposition` | src/main/java/Main.java:103-104 | every index of the array is the cell of its own in-range row, block and column; `CellIndexInverse` makes that cell unique |
| `ImageAssembler.FillRangesPartition` | src/main/java/Main.java:105-111 | the ranges the loop fills cover every index of the array, and each index lies in exactly one of them |
| `ImageAssembler.FillRangeInBounds` | src/main/java/Main.java:107-109 | every range passed to Arrays.fill lies inside the array |
| `ImageAssembler.Fill` | src/main/java/Main.java:107-110 | Arrays.fill sets cells from..to-1 to the value and leaves every other cell as it was |
| `ImageAssembler.AssembleImage` | src/main/java/Main.java:103-112 | the array holds size * size * n cells, and each cell holds the pixel of the block it lies in |
| `ImageAssembler.BlockOfColumn` | src/main/java/Main.java:104 | the block that raster column x belongs to is one of the n blocks |
| `ImageAssembler.RowMajorIndex` | src/main/java/Main.java:117 | a pixel (x, y) of a width by height raster lies inside its row-major data array |
| `ImageAssembler.RasterOfCells` | src/main/java/Main.java:115-117 | the filled array, read as a (size * n) by size raster, shows block i's pixel in every column of block i |
| `ImageAssembler.SendValuesAsImage` | src/main/java/Main.java:100-117 | the image is GetSize * n wide and GetSize high, and pixel (x, y) is pixelValueFor of the value whose block holds column x |
| `Routes.UtcRulesDecodeToZero` | src/main/java/Main.java:47 | without a `tz` parameter the zone is `ZoneOffset.UTC`: its offset decodes to 0 and it has no next transition |
| `Routes.UtcValues` | src/main/java/Main.java:36-37 | the value set of `/api/1/utc` is the single unix time of now, or the range error when now is out of range |
| `Routes.LocalValues` | src/main/java/Main.java:49-57 | four values: the unix time, the current offset, then the next transition's unix time and offset after it, or 0 and 0 without one; fails exactly when one of the two instants is out of range |
| `Routes.UtcHandler` | src/main/java/Main.java:35-39 | fails exactly when now is out of range; otherwise a GetSize-square image every pixel of which decodes, as a 32-bit word, to the unix time of now |
| `Routes.LocalBlocksDecode` | src/main/java/Main.java:49-58 | the four local values decode to the unix time and the transition time as 32-bit words, and to the two offsets exactly; the transition slots give 0 without a transition |
| `Routes.LocalImageDecodes` | src/main/java/Main.java:58 | every pixel of the local image decodes to the value of the block that holds it |
| `Routes.LocalHandler` | src/main/java/Main.java:41-59 | an image of four blocks that decode to the unix time, the offset, the transition time and the offset after it; the zone defaults to UTC; fails exactly when now or the transition instant is out of range |

## Left out

- HTTP routing, the Ratpack server, `sendImage`, PNG encoding by ImageIO and the Netty buffer handling are not modelled. They are I/O around the core.
- `BufferedImage` and `WritableRaster.setDataElements` are modelled only as a row-major `Image` value. The ARGB colour model and alpha handling of the PNG writer are not modelled.
- Parsing is not modelled: `Instant.parse` of `now`, `Long.parseLong` of `X-Request-Start`, `Integer.parseInt` of `size` and `ZoneId.of` of `tz`. The handlers take the parsed values as inputs, and the exceptions these parsers throw on malformed text are not modelled.
- `Instant::now` is a `clock` parameter.
- An `Instant` is held as its whole seconds since the epoch, and its nanoseconds are dropped. `getUnixTime` reads only `INSTANT_SECONDS`. The model also feeds these whole seconds to the zone-rule queries `getOffset` and `nextTransition`. This loses nothing, because the JDK's zone rules depend only on the instant's epoch second.
- The time-zone database is not modelled. `ZoneRules.getOffset` and `ZoneRules.nextTransition` are inputs to the model, as functions in `Routes.ZoneRules`. Only the UTC rules used without `tz` are given concretely.
- ImageAssembler.SendValuesAsImage: requires that 128 * 128 * n fits in an `int`, so the Java expression `size * size * values.length` cannot overflow. Both routes satisfy this with n = 1 and n = 4.
- ImageAssembler.AssembleImage: requires at least one value. With none, the source's loop fills nothing, and `new BufferedImage(0, ...)` then throws. Both routes pass 1 or 4 values.
- ImageAssembler.SendValuesAsImage: requires at least one value, for the same reason.
- ImageAssembler.Fill: requires the range that `Arrays.fill` would otherwise reject with an exception. FillRangeInBounds shows that the loop always passes one.
- The `IllegalStateException` of `getUnixTime` is modelled as an `Err` result that ends the handler. Ratpack's turning it into a server error response is not modelled.
