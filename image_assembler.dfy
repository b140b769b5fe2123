/** The image assembler: lays out n encoded values side by side, each as a
    size-by-size block of identical pixels, in a row-major `int` array of
    stride size * n. */
module ImageAssembler {
  import opened Wrappers
  import opened JavaBits
  import opened PixelCodec
  import opened BlockSize

  /** The row of array index k. */
  function Row(k: int, size: int, count: int): (y: int)
    requires size >= 1 && count >= 1
  {
    k / (size * count)
  }

  /** The block (value number) that array index k belongs to. */
  function Block(k: int, size: int, count: int): (i: int)
    requires size >= 1 && count >= 1
    ensures 0 <= i < count
  {
    assert size * count == count * size;
    QuotientBound(k % (size * count), size, count);
    (k % (size * count)) / size
  }

  /** The column of array index k within its block. */
  function Column(k: int, size: int): (x: int)
    requires size >= 1
  {
    k % size
  }

  /** The array index of column x of block i in row y; it lies within an
      array of size * size * count cells. */
  function CellIndex(size: int, count: int, y: int, i: int, x: int): (k: int)
    requires size >= 1 && 0 <= i < count && 0 <= y < size && 0 <= x < size
    ensures 0 <= k < size * size * count
  {
    StrideFacts(size, count, y, i);
    Bounded(i, size, x, count);
    Bounded(y, size * count, i * size + x, size);
    y * (size * count) + i * size + x
  }

  /** Row, block and column recover the coordinates of a cell. */
  lemma CellIndexInverse(size: int, count: int, y: int, i: int, x: int)
    requires size >= 1 && 0 <= i < count && 0 <= y < size && 0 <= x < size
    ensures Row(CellIndex(size, count, y, i, x), size, count) == y
    ensures Block(CellIndex(size, count, y, i, x), size, count) == i
    ensures Column(CellIndex(size, count, y, i, x), size) == x
  {
    var stride := size * count;
    var k := CellIndex(size, count, y, i, x);
    var within := i * size + x;
    StrideFacts(size, count, y, i);
    Bounded(i, size, x, count);
    DivModUnique(k, stride, y, within);
    DivModUnique(within, size, i, x);
    DivModUnique(k, size, y * count + i, x);
  }

  /** The products that relate rows, blocks and the stride. */
  lemma StrideFacts(size: int, count: int, y: int, i: int)
    ensures count * size == size * count
    ensures size * (size * count) == size * size * count
    ensures y * (size * count) + i * size == (y * count + i) * size
  {
  }

  /** A quotient q and remainder r below d stay below m * d when q < m. */
  lemma Bounded(q: int, d: int, r: int, m: int)
    requires 0 <= q < m && 0 <= r < d
    ensures 0 <= q * d + r < m * d
  {
    MulMonotoneRight(q + 1, m, d);
  }

  /** Every index of the array is a cell: it is decomposed by row, block and
      column, each within bounds. */
  lemma CellDecomposition(k: int, size: int, count: int)
    requires size >= 1 && count >= 1 && 0 <= k < size * size * count
    ensures 0 <= Row(k, size, count) < size
    ensures 0 <= Block(k, size, count) < count
    ensures 0 <= Column(k, size) < size
    ensures k == CellIndex(size, count, Row(k, size, count), Block(k, size, count), Column(k, size))
  {
    var stride := size * count;
    var y, within := k / stride, k % stride;
    var i, x := within / size, within % size;
    StrideFacts(size, count, y, i);
    QuotientBound(k, stride, size);
    QuotientBound(within, size, count);
    DivModUnique(k, size, y * count + i, x);
  }

  /** k / d < m whenever 0 <= k < m * d. */
  lemma QuotientBound(k: int, d: int, m: int)
    requires d >= 1 && 0 <= k < m * d
    ensures 0 <= k / d < m
    ensures k == (k / d) * d + k % d && 0 <= k % d < d
  {
    var q := k / d;
    if q >= m {
      MulMonotoneRight(m, q, d);
    }
    if q < 0 {
      MulBounds(q, d);
    }
  }

  /** The half-open range that Arrays.fill covers for block i of row y. */
  predicate InFillRange(k: int, size: int, count: int, y: int, i: int)
  {
    y * (size * count) + i * size <= k < y * (size * count) + (i + 1) * size
  }

  /** The fill ranges partition the array: index k lies in the range of its
      own row and block, and in no other. */
  lemma FillRangesPartition(k: int, size: int, count: int)
    requires size >= 1 && count >= 1 && 0 <= k < size * size * count
    ensures InFillRange(k, size, count, Row(k, size, count), Block(k, size, count))
    ensures forall y, i | 0 <= y < size && 0 <= i < count && InFillRange(k, size, count, y, i) ::
      y == Row(k, size, count) && i == Block(k, size, count)
  {
    CellDecomposition(k, size, count);
    forall y, i | 0 <= y < size && 0 <= i < count && InFillRange(k, size, count, y, i)
      ensures y == Row(k, size, count) && i == Block(k, size, count)
    {
      var x := k - y * (size * count) - i * size;
      assert k == CellIndex(size, count, y, i, x);
      CellIndexInverse(size, count, y, i, x);
    }
  }

  /** Arrays.fill(a, from, to, v): cells from..to-1 become v, the rest keep
      their contents. */
  method Fill(a: array<Int>, from: int, to: int, v: Int)
    requires 0 <= from <= to <= a.Length
    modifies a
    ensures forall k :: 0 <= k < a.Length ==> a[k] == if from <= k < to then v else old(a[k])
  {
    forall k | from <= k < to {
      a[k] := v;
    }
  }

  /** The loop of Main.sendValuesAsImage: allocates the zeroed `int` array of
      size * size * n cells and fills block i of every row with the i-th pixel
      value. Every cell ends up holding the pixel of its own block. */
  method AssembleImage(pixelValues: seq<Int>, size: int) returns (image: seq<Int>)
    requires size >= 1 && |pixelValues| >= 1
    requires size * size * |pixelValues| <= MaxInt
    ensures |image| == size * size * |pixelValues|
    ensures forall y, i, x | 0 <= y < size && 0 <= i < |pixelValues| && 0 <= x < size ::
      image[CellIndex(size, |pixelValues|, y, i, x)] == pixelValues[i]
    ensures forall k :: 0 <= k < |image| ==> image[k] == pixelValues[Block(k, size, |pixelValues|)]
  {
    var n := |pixelValues|;
    var cells := new Int[size * size * n](_ => 0);
    var stride := size * n;
    for i := 0 to n
      invariant forall y', i', x' | 0 <= y' < size && 0 <= i' < i && 0 <= x' < size ::
        cells[CellIndex(size, n, y', i', x')] == pixelValues[i']
    {
      for y := 0 to size
        invariant forall y', i', x' | 0 <= y' < size && 0 <= i' < n && 0 <= x' < size &&
            (i' < i || (i' == i && y' < y)) ::
          cells[CellIndex(size, n, y', i', x')] == pixelValues[i']
      {
        FillRangeInBounds(size, n, y, i);
        Fill(cells, y * stride + i * size, y * stride + (i + 1) * size, pixelValues[i]);
        forall y', i', x' | 0 <= y' < size && 0 <= i' < n && 0 <= x' < size
          ensures InFillRange(CellIndex(size, n, y', i', x'), size, n, y, i) <==> y' == y && i' == i
        {
          FillRangesPartition(CellIndex(size, n, y', i', x'), size, n);
          CellIndexInverse(size, n, y', i', x');
        }
      }
    }
    image := cells[..];
    EveryCellHoldsItsBlock(image, pixelValues, size);
  }

  /** An image holding pixel i at every coordinate of block i holds, at every
      index, the pixel of the block that index belongs to. */
  lemma EveryCellHoldsItsBlock(image: seq<Int>, pixelValues: seq<Int>, size: int)
    requires size >= 1 && |pixelValues| >= 1
    requires |image| == size * size * |pixelValues|
    requires forall y, i, x | 0 <= y < size && 0 <= i < |pixelValues| && 0 <= x < size ::
      image[CellIndex(size, |pixelValues|, y, i, x)] == pixelValues[i]
    ensures forall k :: 0 <= k < |image| ==> image[k] == pixelValues[Block(k, size, |pixelValues|)]
  {
    forall k | 0 <= k < |image|
      ensures image[k] == pixelValues[Block(k, size, |pixelValues|)]
    {
      var n := |pixelValues|;
      CellDecomposition(k, size, n);
      var y, i, x := Row(k, size, n), Block(k, size, n), Column(k, size);
      assert image[CellIndex(size, n, y, i, x)] == pixelValues[i];
    }
  }

  /** The fill range of block i in row y lies within the array. */
  lemma FillRangeInBounds(size: int, count: int, y: int, i: int)
    requires size >= 1 && 0 <= i < count && 0 <= y < size
    ensures 0 <= y * (size * count) + i * size
    ensures y * (size * count) + (i + 1) * size <= size * size * count
  {
    var stride := size * count;
    MulMonotoneRight(i + 1, count, size);
    MulMonotoneRight(y + 1, size, stride);
    MulMonotoneRight(y, y, stride);
    MulMonotoneRight(i, i, size);
    StrideFacts(size, count, y, i);
    assert (y + 1) * stride == y * stride + stride;
    assert (i + 1) * size == i * size + size;
  }

  /** The raster handed to the PNG encoder: `width` by `height` `int` pixels,
      row-major. */
  datatype Image = Image(width: int, height: int, pixels: seq<Int>)
  {
    predicate Valid()
    {
      0 <= width && 0 <= height && |pixels| == width * height
    }

    /** The pixel at column x of row y. */
    function PixelAt(x: int, y: int): (pixel: Int)
      requires Valid() && 0 <= x < width && 0 <= y < height
    {
      RowMajorIndex(x, y, width, height);
      pixels[y * width + x]
    }
  }

  lemma RowMajorIndex(x: int, y: int, width: int, height: int)
    requires 0 <= x < width && 0 <= y < height
    ensures 0 <= y * width + x < width * height
  {
    Bounded(y, width, x, height);
    assert height * width == width * height;
  }

  /** Main.sendValuesAsImage up to the PNG encoding: each value becomes a pixel
      word, and the image is `size` blocks high and one block per value wide,
          the pixel at (x, y) carrying the value of block x / size. */
  method SendValuesAsImage(values: seq<Long>, sizeParam: Option<Int>) returns (image: Image)
    requires |values| >= 1
    requires MaxSize * MaxSize * |values| <= MaxInt
    ensures image.Valid()
    ensures image.width == GetSize(sizeParam) * |values| && image.height == GetSize(sizeParam)
    ensures forall x, y | 0 <= x < image.width && 0 <= y < image.height ::
      image.PixelAt(x, y) == PixelValueFor(values[BlockOfColumn(x, GetSize(sizeParam), |values|)])
  {
    var size := GetSize(sizeParam);
    var n := |values|;
    var pixelValues := seq(n, i requires 0 <= i < n => PixelValueFor(values[i]));
    MulMonotoneRight(size * size, MaxSize * MaxSize, n);
    var cells := AssembleImage(pixelValues, size);
    image := Image(size * n, size, cells);
    RasterOfCells(cells, pixelValues, size);
  }

  /** The cells laid out by AssembleImage, read as a raster of size * n by size
      pixels, show pixel value x / size in column x. */
  lemma RasterOfCells(cells: seq<Int>, pixelValues: seq<Int>, size: int)
    requires size >= 1 && |pixelValues| >= 1
    requires |cells| == size * size * |pixelValues|
    requires forall y, i, x | 0 <= y < size && 0 <= i < |pixelValues| && 0 <= x < size ::
      cells[CellIndex(size, |pixelValues|, y, i, x)] == pixelValues[i]
    ensures Image(size * |pixelValues|, size, cells).Valid()
    ensures forall x, y | 0 <= x < size * |pixelValues| && 0 <= y < size ::
      Image(size * |pixelValues|, size, cells).PixelAt(x, y) ==
      pixelValues[BlockOfColumn(x, size, |pixelValues|)]
  {
    var n := |pixelValues|;
    var image := Image(size * n, size, cells);
    assert image.Valid() by {
      assert size * size * n == (size * n) * size;
    }
    forall x, y | 0 <= x < size * n && 0 <= y < size
      ensures image.PixelAt(x, y) == pixelValues[BlockOfColumn(x, size, n)]
    {
      RasterCell(size, n, x, y);
      assert image.PixelAt(x, y) == cells[CellIndex(size, n, y, x / size, x % size)];
    }
  }

  /** The block, that is the value, that raster column x shows. */
  function BlockOfColumn(x: int, size: int, count: int): (i: int)
    requires size >= 1 && 0 <= x < size * count
    ensures 0 <= i < count
  {
    assert size * count == count * size;
    QuotientBound(x, size, count);
    x / size
  }

  /** The raster pixel (x, y) is column x % size of block x / size in row y. */
  lemma RasterCell(size: int, count: int, x: int, y: int)
    requires size >= 1 && count >= 1 && 0 <= x < size * count && 0 <= y < size
    ensures 0 <= x / size < count
    ensures y * (size * count) + x == CellIndex(size, count, y, x / size, x % size)
  {
    assert size * count == count * size;
    QuotientBound(x, size, count);
  }
}
