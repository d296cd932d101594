/**
 The index arithmetic of quanta_tissu/tisslm/core/convolution.py over exact numbers: `im2col` copies
 pixels into a matrix, `col2im` adds matrix entries back into pixels, and the one is the transpose of
 the other.
 */
module Convolution {
  import opened Arithmetic
  import opened Sums

  /** An image batch as a function of batch, channel, row and column; a matrix as one of row and column. */
  type Image = (int, int, int, int) -> real
  type Matrix = (int, int) -> real

  datatype Shape = Shape(batch: nat, channels: nat, height: nat, width: nat, kh: nat, kw: nat, stride: nat, padding: nat) {
    /** The kernel has a size, moves, and fits into the padded image. */
    predicate Fits() {
      batch > 0 && channels > 0 && kh > 0 && kw > 0 && stride > 0 && kh <= height + 2 * padding && kw <= width + 2 * padding
    }

    function OutHeight(): (n: nat)
      requires Fits()
      ensures n > 0
    {
      Quotient(height + 2 * padding - kh, stride);
      (height + 2 * padding - kh) / stride + 1
    }

    function OutWidth(): (n: nat)
      requires Fits()
      ensures n > 0
    {
      Quotient(width + 2 * padding - kw, stride);
      (width + 2 * padding - kw) / stride + 1
    }

    function Rows(): nat
      requires Fits()
    {
      batch * OutHeight() * OutWidth()
    }

    function Cols(): nat { channels * kh * kw }

    /** The columns of one channel, and where they start. */
    function Kernel(): nat { kh * kw }

    function Block(c: int): int { c * (kh * kw) }

    function Pixels(): nat { batch * channels * height * width }
  }

  // ---------- positions ----------

  /** Position `(i, j)` in row-major order. */
  function Flat(i: int, j: int, width: int): int { i * width + j }

  lemma FlatDivides(i: int, j: int, width: int)
    requires 0 <= j < width
    ensures Flat(i, j, width) / width == i && Flat(i, j, width) % width == j
  {
    DivMod(Flat(i, j, width), width, i, j);
  }

  lemma FlatBack(u: int, width: int)
    requires width > 0
    ensures Flat(u / width, u % width, width) == u && 0 <= u % width < width
  {
    Quotient(u, width);
  }

  lemma FlatBelow(i: int, j: int, height: int, width: int)
    requires 0 <= i < height && 0 <= j < width
    ensures 0 <= Flat(i, j, width) < height * width
  {
    TimesMonotone(i + 1, height, width);
    TimesMonotone(0, i, width);
  }

  lemma FlatAbove(u: int, height: int, width: int)
    requires width > 0 && 0 <= u < height * width
    ensures 0 <= u / width < height
  {
    Quotient(u, width);
    if u / width >= height {
      TimesMonotone(height, u / width, width);
    }
  }

  function Row(sh: Shape, n: int, oy: int, ox: int): int
    requires sh.Fits()
  {
    Flat(Flat(n, oy, sh.OutHeight()), ox, sh.OutWidth())
  }

  function Col(sh: Shape, c: int, y: int, x: int): int { Flat(Flat(c, y, sh.kh), x, sh.kw) }

  function Pixel(sh: Shape, n: int, c: int, h: int, w: int): int {
    Flat(Flat(Flat(n, c, sh.channels), h, sh.height), w, sh.width)
  }

  /** A row of the matrix as batch, output row and output column; a column as channel, kernel row and kernel column. */
  function RowParts(sh: Shape, r: int): (int, int, int)
    requires sh.Fits()
  {
    (r / sh.OutWidth() / sh.OutHeight(), r / sh.OutWidth() % sh.OutHeight(), r % sh.OutWidth())
  }

  function ColParts(sh: Shape, q: int): (int, int, int)
    requires sh.kh > 0 && sh.kw > 0
  {
    (q / sh.kw / sh.kh, q / sh.kw % sh.kh, q % sh.kw)
  }

  lemma RowOf(sh: Shape, n: int, oy: int, ox: int)
    requires sh.Fits() && 0 <= n < sh.batch && 0 <= oy < sh.OutHeight() && 0 <= ox < sh.OutWidth()
    ensures RowParts(sh, Row(sh, n, oy, ox)) == (n, oy, ox) && 0 <= Row(sh, n, oy, ox) < sh.Rows()
  {
    hide Flat;
    var oh, ow := sh.OutHeight(), sh.OutWidth();
    FlatDivides(Flat(n, oy, oh), ox, ow);
    FlatDivides(n, oy, oh);
    FlatBelow(n, oy, sh.batch, oh);
    FlatBelow(Flat(n, oy, oh), ox, sh.batch * oh, ow);
  }

  lemma RowBack(sh: Shape, r: int)
    requires sh.Fits() && 0 <= r < sh.Rows()
    ensures var (n, oy, ox) := RowParts(sh, r);
            0 <= n < sh.batch && 0 <= oy < sh.OutHeight() && 0 <= ox < sh.OutWidth() && Row(sh, n, oy, ox) == r
  {
    hide Flat;
    var oh, ow := sh.OutHeight(), sh.OutWidth();
    FlatAbove(r, sh.batch * oh, ow);
    FlatAbove(r / ow, sh.batch, oh);
    FlatBack(r, ow);
    FlatBack(r / ow, oh);
  }

  lemma ColOf(sh: Shape, c: int, y: int, x: int)
    requires 0 <= c < sh.channels && 0 <= y < sh.kh && 0 <= x < sh.kw
    ensures ColParts(sh, Col(sh, c, y, x)) == (c, y, x) && 0 <= Col(sh, c, y, x) < sh.Cols()
  {
    hide Flat;
    FlatDivides(Flat(c, y, sh.kh), x, sh.kw);
    FlatDivides(c, y, sh.kh);
    FlatBelow(c, y, sh.channels, sh.kh);
    FlatBelow(Flat(c, y, sh.kh), x, sh.channels * sh.kh, sh.kw);
  }

  lemma ColBack(sh: Shape, q: int)
    requires sh.kh > 0 && sh.kw > 0 && 0 <= q < sh.Cols()
    ensures var (c, y, x) := ColParts(sh, q);
            0 <= c < sh.channels && 0 <= y < sh.kh && 0 <= x < sh.kw && Col(sh, c, y, x) == q
  {
    hide Flat;
    FlatAbove(q, sh.channels * sh.kh, sh.kw);
    FlatAbove(q / sh.kw, sh.channels, sh.kh);
    FlatBack(q, sh.kw);
    FlatBack(q / sh.kw, sh.kh);
  }

  /** A pixel's position as batch, channel, row and column. */
  function PixelParts(sh: Shape, u: int): (int, int, int, int)
    requires sh.channels > 0 && sh.height > 0 && sh.width > 0
  {
    (u / sh.width / sh.height / sh.channels, u / sh.width / sh.height % sh.channels, u / sh.width % sh.height, u % sh.width)
  }

  predicate InImage(sh: Shape, n: int, c: int, h: int, w: int) {
    0 <= n < sh.batch && 0 <= c < sh.channels && 0 <= h < sh.height && 0 <= w < sh.width
  }

  lemma PixelOf(sh: Shape, n: int, c: int, h: int, w: int)
    requires InImage(sh, n, c, h, w)
    ensures PixelParts(sh, Pixel(sh, n, c, h, w)) == (n, c, h, w) && 0 <= Pixel(sh, n, c, h, w) < sh.Pixels()
  {
    hide Flat;
    var nc := Flat(n, c, sh.channels);
    FlatDivides(Flat(nc, h, sh.height), w, sh.width);
    FlatDivides(nc, h, sh.height);
    FlatDivides(n, c, sh.channels);
    FlatBelow(n, c, sh.batch, sh.channels);
    FlatBelow(nc, h, sh.batch * sh.channels, sh.height);
    FlatBelow(Flat(nc, h, sh.height), w, sh.batch * sh.channels * sh.height, sh.width);
  }

  lemma PixelBack(sh: Shape, u: int)
    requires sh.channels > 0 && sh.height > 0 && sh.width > 0 && 0 <= u < sh.Pixels()
    ensures var (n, c, h, w) := PixelParts(sh, u); InImage(sh, n, c, h, w) && Pixel(sh, n, c, h, w) == u
  {
    hide Flat;
    FlatAbove(u, sh.batch * sh.channels * sh.height, sh.width);
    FlatAbove(u / sh.width, sh.batch * sh.channels, sh.height);
    FlatAbove(u / sh.width / sh.height, sh.batch, sh.channels);
    FlatBack(u, sh.width);
    FlatBack(u / sh.width, sh.height);
    FlatBack(u / sh.width / sh.height, sh.channels);
  }

  // ---------- strides ----------

  /** How many positions a slice `start:stop:step` takes along an axis of length `size`. */
  function SliceLength(start: int, stop: int, step: int, size: int): int
    requires step > 0
  {
    var end := if stop < size then stop else size;
    if end <= start then 0 else (end - start - 1) / step + 1
  }

  /** Along one axis, every strided index stays inside the padded image, and no slice is cut short by its end. */
  lemma StridesFit(size: nat, kernel: nat, stride: nat, y: nat, oy: nat)
    requires 0 < kernel <= size && stride > 0 && y < kernel && oy < (size - kernel) / stride + 1
    ensures y + stride * oy < size
    ensures y + stride * ((size - kernel) / stride + 1) <= size + stride - 1
    ensures SliceLength(y, y + stride * ((size - kernel) / stride + 1), stride, size) == (size - kernel) / stride + 1
    ensures SliceLength(y, y + stride * ((size - kernel) / stride + 1), stride, size + stride - 1) == (size - kernel) / stride + 1
  {
    var last := (size - kernel) / stride;
    Quotient(size - kernel, stride);
    TimesMonotone(oy, last, stride);
    Spread(stride, last, -1);
    var stop := y + stride * (last + 1);
    assert stop == y + stride * last + stride;
    DivMod(stop - y - 1, stride, last, stride - 1);
    if size < stop {
      DivMod(size - y - 1, stride, last, size - y - 1 - stride * last);
    }
  }

  // ---------- im2col ----------

  /** The zero-padded image. */
  function Padded(sh: Shape, x: Image, n: int, c: int, i: int, j: int): real {
    if sh.padding <= i < sh.padding + sh.height && sh.padding <= j < sh.padding + sh.width
    then x(n, c, i - sh.padding, j - sh.padding) else 0.0
  }

  /** What `im2col` puts into row `r` and column `q`. */
  function Entry(sh: Shape, x: Image): Matrix
    requires sh.Fits()
  {
    (r, q) =>
      var (n, oy, ox) := RowParts(sh, r);
      var (c, y, k) := ColParts(sh, q);
      Padded(sh, x, n, c, y + sh.stride * oy, k + sh.stride * ox)
  }

  /**
   The matrix in plain arithmetic: one row for every image and window, in that order, one column for every channel and
   kernel position, and in it the image's pixel under that position of the window, or zero in the padding.
   */
  lemma EntryAt(sh: Shape, x: Image, n: nat, oy: nat, ox: nat, c: nat, y: nat, k: nat)
    requires sh.Fits() && n < sh.batch && c < sh.channels && y < sh.kh && k < sh.kw
    requires oy <= (sh.height + 2 * sh.padding - sh.kh) / sh.stride && ox <= (sh.width + 2 * sh.padding - sh.kw) / sh.stride
    ensures var oh, ow := (sh.height + 2 * sh.padding - sh.kh) / sh.stride + 1, (sh.width + 2 * sh.padding - sh.kw) / sh.stride + 1;
            var h, w := y + sh.stride * oy - sh.padding, k + sh.stride * ox - sh.padding;
            Entry(sh, x)((n * oh + oy) * ow + ox, (c * sh.kh + y) * sh.kw + k) ==
            if 0 <= h < sh.height && 0 <= w < sh.width then x(n, c, h, w) else 0.0
  {
    RowIs(sh, n, oy, ox);
    ColIs(sh, c, y, k);
    assert oy < sh.OutHeight() && ox < sh.OutWidth();
    hide RowParts, ColParts, Row, Col;
    RowOf(sh, n, oy, ox);
    ColOf(sh, c, y, k);
    EntryIs(sh, x, Row(sh, n, oy, ox), Col(sh, c, y, k), n, oy, ox, c, y, k);
  }

  lemma RowIs(sh: Shape, n: int, oy: int, ox: int)
    requires sh.Fits()
    ensures var oh, ow := (sh.height + 2 * sh.padding - sh.kh) / sh.stride + 1, (sh.width + 2 * sh.padding - sh.kw) / sh.stride + 1;
            Row(sh, n, oy, ox) == (n * oh + oy) * ow + ox && oh == sh.OutHeight() && ow == sh.OutWidth()
  {
  }

  lemma ColIs(sh: Shape, c: int, y: int, k: int)
    ensures Col(sh, c, y, k) == (c * sh.kh + y) * sh.kw + k
  {
  }

  lemma EntryIs(sh: Shape, x: Image, r: int, q: int, n: int, oy: int, ox: int, c: int, y: int, k: int)
    requires sh.Fits() && RowParts(sh, r) == (n, oy, ox) && ColParts(sh, q) == (c, y, k)
    ensures var h, w := y + sh.stride * oy - sh.padding, k + sh.stride * ox - sh.padding;
            Entry(sh, x)(r, q) == if 0 <= h < sh.height && 0 <= w < sh.width then x(n, c, h, w) else 0.0
  {
    hide RowParts, ColParts;
  }

  // ---------- col2im ----------

  /** The index of position `i` on the slice that starts at `start`, or -1 if it is not on it. */
  function OnSlice(i: int, start: int, stride: int, length: int): int
    requires stride > 0
  {
    if start <= i && (i - start) % stride == 0 && (i - start) / stride < length then (i - start) / stride else -1
  }

  lemma OnSliceIs(i: int, start: int, stride: int, length: int, o: int)
    requires stride > 0 && 0 <= o < length
    ensures OnSlice(i, start, stride, length) == o <==> i == start + stride * o
  {
    Quotient(i - start, stride);
    if i == start + stride * o {
      DivMod(i - start, stride, o, 0);
      TimesMonotone(0, o, stride);
    }
  }

  /** What the kernel position `k`, in row-major order, adds to position `(i, j)` of the padded image. */
  function Part(sh: Shape, m: Matrix, n: int, c: int, i: int, j: int, k: int): real
    requires sh.Fits()
  {
    var oy := OnSlice(i, k / sh.kw, sh.stride, sh.OutHeight());
    var ox := OnSlice(j, k % sh.kw, sh.stride, sh.OutWidth());
    if oy >= 0 && ox >= 0 then m(Row(sh, n, oy, ox), Col(sh, c, k / sh.kw, k % sh.kw)) else 0.0
  }

  function Parts(sh: Shape, m: Matrix, n: int, c: int, i: int, j: int): int -> real
    requires sh.Fits()
  {
    k => Part(sh, m, n, c, i, j, k)
  }

  /** What `col2im` gives for a pixel. */
  function Gathered(sh: Shape, m: Matrix): Image
    requires sh.Fits()
  {
    (n, c, h, w) => Sum(sh.Kernel(), Parts(sh, m, n, c, h + sh.padding, w + sh.padding))
  }

  // ---------- the transpose ----------

  /** The pixel that row `r` and column `q` of the matrix hold, or -1 in the padding. */
  function Place(sh: Shape, r: int, q: int): int
    requires sh.Fits()
  {
    var (n, oy, ox) := RowParts(sh, r);
    var (c, y, k) := ColParts(sh, q);
    var h := y + sh.stride * oy - sh.padding;
    var w := k + sh.stride * ox - sh.padding;
    if 0 <= h < sh.height && 0 <= w < sh.width then Pixel(sh, n, c, h, w) else -1
  }

  function Places(sh: Shape): (int, int) -> int
    requires sh.Fits()
  {
    (r, q) => Place(sh, r, q)
  }

  /** An image's pixels in row-major order. */
  function Flattened(sh: Shape, x: Image): int -> real {
    u =>
      if sh.channels > 0 && sh.height > 0 && sh.width > 0
      then var (n, c, h, w) := PixelParts(sh, u); x(n, c, h, w)
      else 0.0
  }

  lemma PlaceIs(sh: Shape, r: int, q: int, n: int, c: int, h: int, w: int)
    requires sh.Fits() && 0 <= r < sh.Rows() && 0 <= q < sh.Cols() && InImage(sh, n, c, h, w)
    ensures var (n', oy, ox) := RowParts(sh, r);
            var (c', y, k) := ColParts(sh, q);
            Place(sh, r, q) == Pixel(sh, n, c, h, w) <==>
              n' == n && c' == c && y + sh.stride * oy == h + sh.padding && k + sh.stride * ox == w + sh.padding
  {
    hide Pixel, RowParts, ColParts, PixelParts;
    var (n', oy, ox) := RowParts(sh, r);
    var (c', y, k) := ColParts(sh, q);
    RowBack(sh, r);
    ColBack(sh, q);
    PixelOf(sh, n, c, h, w);
    var h', w' := y + sh.stride * oy - sh.padding, k + sh.stride * ox - sh.padding;
    if 0 <= h' < sh.height && 0 <= w' < sh.width {
      PixelOf(sh, n', c', h', w');
    }
  }

  lemma PlacesInto(sh: Shape)
    requires sh.Fits()
    ensures Into(Places(sh), sh.Rows(), sh.Cols(), sh.Pixels())
  {
    hide Pixel, RowParts, ColParts, PixelParts;
    forall r, q | 0 <= r < sh.Rows() && 0 <= q < sh.Cols() ensures Places(sh)(r, q) < sh.Pixels() {
      var (n, oy, ox) := RowParts(sh, r);
      var (c, y, k) := ColParts(sh, q);
      RowBack(sh, r);
      ColBack(sh, q);
      var h, w := y + sh.stride * oy - sh.padding, k + sh.stride * ox - sh.padding;
      if 0 <= h < sh.height && 0 <= w < sh.width {
        PixelOf(sh, n, c, h, w);
      } else {
        NoPixels(sh);
      }
    }
  }

  lemma NoPixels(sh: Shape)
    ensures sh.Pixels() >= 0
  {
  }

  /** The matrix of `im2col` is the image gathered along the places. */
  lemma EntryGathers(sh: Shape, x: Image, r: int, q: int)
    requires sh.Fits() && 0 <= r < sh.Rows() && 0 <= q < sh.Cols()
    ensures Entry(sh, x)(r, q) == Gather(Places(sh), Flattened(sh, x))(r, q)
  {
    hide Pixel, RowParts, ColParts, PixelParts;
    var (n, oy, ox) := RowParts(sh, r);
    var (c, y, k) := ColParts(sh, q);
    RowBack(sh, r);
    ColBack(sh, q);
    var h, w := y + sh.stride * oy - sh.padding, k + sh.stride * ox - sh.padding;
    if 0 <= h < sh.height && 0 <= w < sh.width {
      PixelOf(sh, n, c, h, w);
    }
  }

  /** The entries of column `q` that go to a pixel: at most one, and only for the pixel's own channel. */
  lemma ColumnScatters(sh: Shape, m: Matrix, n: int, c: int, h: int, w: int, q: int, f: int -> real)
    requires sh.Fits() && InImage(sh, n, c, h, w) && 0 <= q < sh.Cols()
    requires forall r | 0 <= r < sh.Rows() :: f(r) == GoesTo(Places(sh), m, Pixel(sh, n, c, h, w))(r, q)
    ensures var (c', y, k) := ColParts(sh, q);
            Sum(sh.Rows(), f) == if c' == c then Part(sh, m, n, c, h + sh.padding, w + sh.padding, Flat(y, k, sh.kw)) else 0.0
  {
    hide Pixel, RowParts, ColParts, Place, Row, Col, OnSlice, Sum, Flat;
    var (c', y, k) := ColParts(sh, q);
    ColBack(sh, q);
    FlatDivides(y, k, sh.kw);
    var i, j := h + sh.padding, w + sh.padding;
    var oy, ox := OnSlice(i, y, sh.stride, sh.OutHeight()), OnSlice(j, k, sh.stride, sh.OutWidth());
    SliceBound(i, y, sh.stride, sh.OutHeight());
    SliceBound(j, k, sh.stride, sh.OutWidth());
    forall r | 0 <= r < sh.Rows()
      ensures f(r) == if c' == c && oy >= 0 && ox >= 0 && r == Row(sh, n, oy, ox) then m(r, q) else 0.0 {
      PlaceIs(sh, r, q, n, c, h, w);
      RowBack(sh, r);
      var (n', oy', ox') := RowParts(sh, r);
      OnSliceIs(i, y, sh.stride, sh.OutHeight(), oy');
      OnSliceIs(j, k, sh.stride, sh.OutWidth(), ox');
      if oy >= 0 && ox >= 0 {
        RowOf(sh, n, oy, ox);
      }
    }
    if c' == c && oy >= 0 && ox >= 0 {
      RowOf(sh, n, oy, ox);
      SumOnly(sh.Rows(), f, Row(sh, n, oy, ox));
    } else {
      SumZero(sh.Rows(), f);
    }
  }

  lemma SliceBound(i: int, start: int, stride: int, length: int)
    requires stride > 0
    ensures -1 <= OnSlice(i, start, stride, length) &&
            (OnSlice(i, start, stride, length) >= 0 ==> OnSlice(i, start, stride, length) < length)
  {
    Quotient(i - start, stride);
  }

  /** `col2im` adds to every pixel exactly the matrix entries that `im2col` copies it to. */
  lemma GatheredScatters(sh: Shape, m: Matrix, n: int, c: int, h: int, w: int)
    requires sh.Fits() && InImage(sh, n, c, h, w)
    ensures Gathered(sh, m)(n, c, h, w) == Sum2(sh.Rows(), sh.Cols(), GoesTo(Places(sh), m, Pixel(sh, n, c, h, w)))
  {
    hide Pixel, ColParts, Place, Sum, Sum2, Part, GoesTo, Flat;
    hide Shape.Kernel, Shape.Block, Shape.Cols, Shape.Rows;
    var go := GoesTo(Places(sh), m, Pixel(sh, n, c, h, w));
    var column := (q: int) => Sum(sh.Rows(), r => go(r, q));
    SumColumns(sh.Rows(), sh.Cols(), go, column);
    var parts := Parts(sh, m, n, c, h + sh.padding, w + sh.padding);
    forall q | 0 <= q < sh.Cols()
      ensures var (c', y, k) := ColParts(sh, q); column(q) == if c' == c then parts(Flat(y, k, sh.kw)) else 0.0 {
      ColumnScatters(sh, m, n, c, h, w, q, r => go(r, q));
    }
    forall k | 0 <= k < sh.Kernel() ensures parts(k) == column(sh.Block(c) + k) {
      BlockColumn(sh, c, k);
    }
    forall q | 0 <= q < sh.Cols() && !(sh.Block(c) <= q < sh.Block(c) + sh.Kernel()) ensures column(q) == 0.0 {
      OtherBlock(sh, c, q);
    }
    BlockFits(sh, c);
    SumBlock(sh.Cols(), column, sh.Block(c), sh.Kernel(), parts);
  }

  lemma BlockFits(sh: Shape, c: int)
    requires 0 <= c < sh.channels
    ensures 0 <= sh.Block(c) && sh.Block(c) + sh.Kernel() <= sh.Cols()
  {
    TimesMonotone(c + 1, sh.channels, sh.kh * sh.kw);
    TimesMonotone(0, c, sh.kh * sh.kw);
    Regroup(sh.channels, sh.kh, 0, sh.kw, 0);
  }

  lemma BlockColumn(sh: Shape, c: int, k: int)
    requires sh.kh > 0 && sh.kw > 0 && 0 <= c < sh.channels && 0 <= k < sh.Kernel()
    ensures var q := sh.Block(c) + k;
            0 <= q < sh.Cols() && ColParts(sh, q) == (c, k / sh.kw, k % sh.kw) && Flat(k / sh.kw, k % sh.kw, sh.kw) == k
  {
    hide ColParts;
    FlatAbove(k, sh.kh, sh.kw);
    FlatBack(k, sh.kw);
    ColOf(sh, c, k / sh.kw, k % sh.kw);
    assert Col(sh, c, k / sh.kw, k % sh.kw) == sh.Block(c) + k by { Regroup(c, sh.kh, k / sh.kw, sh.kw, k % sh.kw); }
  }

  lemma Regroup(c: int, kh: int, y: int, kw: int, x: int)
    ensures (c * kh + y) * kw + x == c * (kh * kw) + (y * kw + x)
  {
  }

  lemma OtherBlock(sh: Shape, c: int, q: int)
    requires sh.kh > 0 && sh.kw > 0 && 0 <= q < sh.Cols()
    requires !(sh.Block(c) <= q < sh.Block(c) + sh.Kernel())
    ensures ColParts(sh, q).0 != c
  {
    hide ColParts;
    ColBack(sh, q);
    var (c', y, k) := ColParts(sh, q);
    Regroup(c', sh.kh, y, sh.kw, k);
    FlatBelow(y, k, sh.kh, sh.kw);
  }

  /** Over exact numbers, `col2im` is the transpose of `im2col`, for every shape that fits. */
  lemma Transpose(sh: Shape, x: Image, m: Matrix)
    requires sh.Fits()
    ensures Sum2(sh.Rows(), sh.Cols(), Times(Entry(sh, x), m)) ==
            Sum(sh.Pixels(), u => Flattened(sh, x)(u) * Flattened(sh, Gathered(sh, m))(u))
  {
    hide Entry, Gathered, Place, Flattened, Sum, Sum2;
    hide Shape.Rows, Shape.Cols, Shape.Pixels;
    var at, flat := Places(sh), Flattened(sh, x);
    PlacesInto(sh);
    Adjoint(at, m, sh.Rows(), sh.Cols(), sh.Pixels(), flat);
    SameEntries(sh, x, m);
    forall u | 0 <= u < sh.Pixels()
      ensures Weighted(at, m, sh.Rows(), sh.Cols(), flat)(u) == flat(u) * Flattened(sh, Gathered(sh, m))(u) {
      FlattenedScatters(sh, m, u);
    }
    SumEq(sh.Pixels(), Weighted(at, m, sh.Rows(), sh.Cols(), flat), u => flat(u) * Flattened(sh, Gathered(sh, m))(u));
  }

  lemma SameEntries(sh: Shape, x: Image, m: Matrix)
    requires sh.Fits()
    ensures Sum2(sh.Rows(), sh.Cols(), Times(Entry(sh, x), m)) == Sum2(sh.Rows(), sh.Cols(), Times(Gather(Places(sh), Flattened(sh, x)), m))
  {
    hide Entry, Gather, Flattened, Sum2;
    forall r, q | 0 <= r < sh.Rows() && 0 <= q < sh.Cols()
      ensures Times(Entry(sh, x), m)(r, q) == Times(Gather(Places(sh), Flattened(sh, x)), m)(r, q) {
      EntryGathers(sh, x, r, q);
    }
    Sum2Eq(sh.Rows(), sh.Cols(), Times(Entry(sh, x), m), Times(Gather(Places(sh), Flattened(sh, x)), m));
  }

  lemma FlattenedScatters(sh: Shape, m: Matrix, u: int)
    requires sh.Fits() && 0 <= u < sh.Pixels()
    ensures Flattened(sh, Gathered(sh, m))(u) == Sum2(sh.Rows(), sh.Cols(), GoesTo(Places(sh), m, u))
  {
    hide Gathered, PixelParts, Place, Sum2;
    SomePixel(sh, u);
    PixelBack(sh, u);
    var (n, c, h, w) := PixelParts(sh, u);
    GatheredScatters(sh, m, n, c, h, w);
  }

  lemma SomePixel(sh: Shape, u: int)
    requires 0 <= u < sh.Pixels()
    ensures sh.height > 0 && sh.width > 0
  {
  }
}
