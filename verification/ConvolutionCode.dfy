/** The loops of `im2col` and `col2im`, slice by slice; numpy's slice assignments are parallel assignments. */
module ConvolutionCode {
  import opened Arithmetic
  import opened Sums
  import opened Convolution

  type Columns = array6<real>

  /** The entry of the six-dimensional array before it is reshaped. */
  function At(sh: Shape, x: Image, n: int, c: int, y: int, k: int, oy: int, ox: int): real {
    Padded(sh, x, n, c, y + sh.stride * oy, k + sh.stride * ox)
  }

  predicate Sized(sh: Shape, cols: Columns)
    requires sh.Fits()
  {
    && cols.Length0 == sh.batch && cols.Length1 == sh.channels && cols.Length2 == sh.kh && cols.Length3 == sh.kw
    && cols.Length4 == sh.OutHeight() && cols.Length5 == sh.OutWidth()
  }

  /** The slices of the first `done` kernel positions, in row-major order, are filled. */
  ghost predicate Filled(sh: Shape, x: Image, cols: Columns, done: int)
    requires sh.Fits() && Sized(sh, cols)
    reads cols
  {
    forall n, c, y, k, oy, ox
      | 0 <= n < sh.batch && 0 <= c < sh.channels && 0 <= y < sh.kh && 0 <= k < sh.kw &&
        0 <= oy < sh.OutHeight() && 0 <= ox < sh.OutWidth() && Flat(y, k, sh.kw) < done ::
      cols[n, c, y, k, oy, ox] == At(sh, x, n, c, y, k, oy, ox)
  }

  predicate IsPadded(sh: Shape, x: Image, img: array4<real>)
    reads img
  {
    && img.Length0 == sh.batch && img.Length1 == sh.channels
    && img.Length2 == sh.height + 2 * sh.padding && img.Length3 == sh.width + 2 * sh.padding
    && forall n, c, i, j | 0 <= n < img.Length0 && 0 <= c < img.Length1 && 0 <= i < img.Length2 && 0 <= j < img.Length3 ::
         img[n, c, i, j] == Padded(sh, x, n, c, i, j)
  }

  method Im2Col(sh: Shape, x: Image) returns (m: array2<real>)
    requires sh.Fits()
    ensures fresh(m) && m.Length0 == sh.Rows() && m.Length1 == sh.Cols()
    ensures forall r, q | 0 <= r < sh.Rows() && 0 <= q < sh.Cols() :: m[r, q] == Entry(sh, x)(r, q)
  {
    hide Entry, Flat, Shape.Rows, Shape.Cols, At, Padded;
    var img := Pad(sh, x);
    var cols := new real[sh.batch, sh.channels, sh.kh, sh.kw, sh.OutHeight(), sh.OutWidth()]((_, _, _, _, _, _) => 0.0);
    NothingBelow(sh);
    for y := 0 to sh.kh
      invariant IsPadded(sh, x, img) && Filled(sh, x, cols, Flat(y, 0, sh.kw))
    {
      for k := 0 to sh.kw
        invariant IsPadded(sh, x, img) && Filled(sh, x, cols, Flat(y, k, sh.kw))
      {
        CopySlice(sh, x, img, cols, y, k);
        FlatNext(y, k, sh.kw);
      }
      NextRow(y, sh.kw);
    }
    m := Reshape(sh, x, cols);
  }

  lemma NothingBelow(sh: Shape)
    ensures forall y, k | 0 <= y < sh.kh && 0 <= k < sh.kw :: Flat(y, k, sh.kw) >= Flat(0, 0, sh.kw)
  {
    forall y, k | 0 <= y < sh.kh && 0 <= k < sh.kw ensures Flat(y, k, sh.kw) >= Flat(0, 0, sh.kw) {
      FlatBelow(y, k, sh.kh, sh.kw);
    }
  }

  lemma NextRow(y: int, width: int)
    ensures Flat(y, width, width) == Flat(y + 1, 0, width) && Flat(0, 0, width) == 0
  {
  }

  /** `np.pad` with zeros. */
  method Pad(sh: Shape, x: Image) returns (img: array4<real>)
    ensures fresh(img) && IsPadded(sh, x, img)
  {
    img := new real[sh.batch, sh.channels, sh.height + 2 * sh.padding, sh.width + 2 * sh.padding](
      (n, c, i, j) => Padded(sh, x, n, c, i, j));
  }

  /** `cols[:, :, y, k, :, :] = img[:, :, y:y_max:stride, k:k_max:stride]` */
  method CopySlice(sh: Shape, x: Image, img: array4<real>, cols: Columns, y: int, k: int)
    requires sh.Fits() && Sized(sh, cols) && IsPadded(sh, x, img) && 0 <= y < sh.kh && 0 <= k < sh.kw
    requires Filled(sh, x, cols, Flat(y, k, sh.kw))
    modifies cols
    ensures Filled(sh, x, cols, Flat(y, k, sh.kw) + 1)
  {
    hide Flat, Padded;
    var oh, ow := sh.OutHeight(), sh.OutWidth();
    InsideAll(sh, y, k);
    forall n, c, oy, ox | 0 <= n < sh.batch && 0 <= c < sh.channels && 0 <= oy < oh && 0 <= ox < ow {
      cols[n, c, y, k, oy, ox] := img[n, c, y + sh.stride * oy, k + sh.stride * ox];
    }
    SamePosition(sh, y, k);
  }

  lemma InsideAll(sh: Shape, y: int, k: int)
    requires sh.Fits() && 0 <= y < sh.kh && 0 <= k < sh.kw
    ensures forall oy | 0 <= oy < sh.OutHeight() :: 0 <= y + sh.stride * oy < sh.height + 2 * sh.padding
    ensures forall ox | 0 <= ox < sh.OutWidth() :: 0 <= k + sh.stride * ox < sh.width + 2 * sh.padding
  {
    forall oy | 0 <= oy < sh.OutHeight() ensures 0 <= y + sh.stride * oy < sh.height + 2 * sh.padding {
      StridesFit(sh.height + 2 * sh.padding, sh.kh, sh.stride, y, oy);
      TimesMonotone(0, oy, sh.stride);
    }
    forall ox | 0 <= ox < sh.OutWidth() ensures 0 <= k + sh.stride * ox < sh.width + 2 * sh.padding {
      StridesFit(sh.width + 2 * sh.padding, sh.kw, sh.stride, k, ox);
      TimesMonotone(0, ox, sh.stride);
    }
  }

  lemma SamePosition(sh: Shape, y: int, k: int)
    requires 0 <= y < sh.kh && 0 <= k < sh.kw
    ensures forall y', k' | 0 <= y' < sh.kh && 0 <= k' < sh.kw && Flat(y', k', sh.kw) == Flat(y, k, sh.kw) :: y' == y && k' == k
  {
    forall y', k' | 0 <= y' < sh.kh && 0 <= k' < sh.kw && Flat(y', k', sh.kw) == Flat(y, k, sh.kw) ensures y' == y && k' == k {
      FlatDivides(y, k, sh.kw);
      FlatDivides(y', k', sh.kw);
    }
  }

  /** `cols.transpose(0, 4, 5, 1, 2, 3).reshape(...)` */
  method Reshape(sh: Shape, x: Image, cols: Columns) returns (m: array2<real>)
    requires sh.Fits() && Sized(sh, cols) && Filled(sh, x, cols, Flat(sh.kh, 0, sh.kw))
    ensures fresh(m) && m.Length0 == sh.Rows() && m.Length1 == sh.Cols()
    ensures forall r, q | 0 <= r < sh.Rows() && 0 <= q < sh.Cols() :: m[r, q] == Entry(sh, x)(r, q)
  {
    hide Flat, Padded, RowParts, ColParts, Shape.Rows, Shape.Cols;
    m := new real[sh.Rows(), sh.Cols()];
    PartsInside(sh);
    forall r, q | 0 <= r < sh.Rows() && 0 <= q < sh.Cols() {
      m[r, q] := cols[RowParts(sh, r).0, ColParts(sh, q).0, ColParts(sh, q).1, ColParts(sh, q).2, RowParts(sh, r).1, RowParts(sh, r).2];
    }
  }

  lemma PartsInside(sh: Shape)
    requires sh.Fits()
    ensures forall r | 0 <= r < sh.Rows() ::
      var p := RowParts(sh, r); 0 <= p.0 < sh.batch && 0 <= p.1 < sh.OutHeight() && 0 <= p.2 < sh.OutWidth()
    ensures forall q | 0 <= q < sh.Cols() ::
      var p := ColParts(sh, q); 0 <= p.0 < sh.channels && 0 <= p.1 < sh.kh && 0 <= p.2 < sh.kw && Flat(p.1, p.2, sh.kw) < Flat(sh.kh, 0, sh.kw)
  {
    hide RowParts, ColParts;
    forall r | 0 <= r < sh.Rows()
      ensures var p := RowParts(sh, r); 0 <= p.0 < sh.batch && 0 <= p.1 < sh.OutHeight() && 0 <= p.2 < sh.OutWidth() {
      RowBack(sh, r);
    }
    forall q | 0 <= q < sh.Cols()
      ensures var p := ColParts(sh, q); 0 <= p.0 < sh.channels && 0 <= p.1 < sh.kh && 0 <= p.2 < sh.kw && Flat(p.1, p.2, sh.kw) < Flat(sh.kh, 0, sh.kw) {
      ColBack(sh, q);
      FlatBelow(ColParts(sh, q).1, ColParts(sh, q).2, sh.kh, sh.kw);
    }
  }

  // ---------- col2im ----------

  /** The padded image holds what the first `done` kernel positions add. */
  ghost predicate Added(sh: Shape, m: Matrix, img: array4<real>, done: int)
    requires sh.Fits()
    reads img
  {
    done >= 0 &&
    forall n, c, i, j | 0 <= n < img.Length0 && 0 <= c < img.Length1 && 0 <= i < img.Length2 && 0 <= j < img.Length3 ::
      img[n, c, i, j] == Sum(done, Parts(sh, m, n, c, i, j))
  }

  method Col2Im(sh: Shape, m: Matrix) returns (x: array4<real>)
    requires sh.Fits()
    ensures fresh(x) && x.Length0 == sh.batch && x.Length1 == sh.channels && x.Length2 == sh.height && x.Length3 == sh.width
    ensures forall n, c, h, w | InImage(sh, n, c, h, w) :: x[n, c, h, w] == Gathered(sh, m)(n, c, h, w)
  {
    hide Flat, Parts, Shape.Kernel;
    var img := new real[sh.batch, sh.channels, sh.height + 2 * sh.padding + sh.stride - 1, sh.width + 2 * sh.padding + sh.stride - 1](
      (_, _, _, _) => 0.0);
    NextRow(0, sh.kw);
    for y := 0 to sh.kh
      invariant Added(sh, m, img, Flat(y, 0, sh.kw))
    {
      for k := 0 to sh.kw
        invariant Added(sh, m, img, Flat(y, k, sh.kw))
      {
        AddSlice(sh, m, img, y, k);
        FlatNext(y, k, sh.kw);
      }
      NextRow(y, sh.kw);
    }
    FlatEnd(sh);
    x := Crop(sh, m, img);
  }

  /** `img[:, :, padding:height + padding, padding:width + padding]` */
  method Crop(sh: Shape, m: Matrix, img: array4<real>) returns (x: array4<real>)
    requires sh.Fits() && Added(sh, m, img, sh.Kernel())
    requires img.Length0 == sh.batch && img.Length1 == sh.channels
    requires img.Length2 >= sh.height + sh.padding && img.Length3 >= sh.width + sh.padding
    ensures fresh(x) && x.Length0 == sh.batch && x.Length1 == sh.channels && x.Length2 == sh.height && x.Length3 == sh.width
    ensures forall n, c, h, w | InImage(sh, n, c, h, w) :: x[n, c, h, w] == Gathered(sh, m)(n, c, h, w)
  {
    hide Parts, Sum, Shape.Kernel;
    x := new real[sh.batch, sh.channels, sh.height, sh.width];
    forall n, c, h, w | 0 <= n < sh.batch && 0 <= c < sh.channels && 0 <= h < sh.height && 0 <= w < sh.width {
      x[n, c, h, w] := img[n, c, h + sh.padding, w + sh.padding];
    }
  }

  lemma FlatNext(y: int, k: int, width: int)
    ensures Flat(y, k + 1, width) == Flat(y, k, width) + 1
  {
  }

  lemma FlatEnd(sh: Shape)
    ensures Flat(sh.kh, 0, sh.kw) == sh.Kernel()
  {
  }

  /** The position that a slice takes at index `o`. */
  function Strided(start: int, stride: int, o: int): int { start + stride * o }

  /** A slice takes no position twice, and its positions are those on it. */
  lemma StridedOnce(start: int, stride: int, length: int)
    requires stride > 0
    ensures forall o | 0 <= o < length :: OnSlice(Strided(start, stride, o), start, stride, length) == o
    ensures forall i :: var o := OnSlice(i, start, stride, length); o == -1 || (0 <= o < length && Strided(start, stride, o) == i)
  {
    hide OnSlice;
    forall o | 0 <= o < length ensures OnSlice(Strided(start, stride, o), start, stride, length) == o {
      OnSliceIs(Strided(start, stride, o), start, stride, length, o);
    }
    forall i ensures var o := OnSlice(i, start, stride, length); o == -1 || (0 <= o < length && Strided(start, stride, o) == i) {
      SliceBound(i, start, stride, length);
      if OnSlice(i, start, stride, length) >= 0 {
        OnSliceIs(i, start, stride, length, OnSlice(i, start, stride, length));
      }
    }
  }

  lemma StridedInside(sh: Shape, y: int, k: int)
    requires sh.Fits() && 0 <= y < sh.kh && 0 <= k < sh.kw
    ensures forall oy | 0 <= oy < sh.OutHeight() :: 0 <= Strided(y, sh.stride, oy) < sh.height + 2 * sh.padding
    ensures forall ox | 0 <= ox < sh.OutWidth() :: 0 <= Strided(k, sh.stride, ox) < sh.width + 2 * sh.padding
  {
    InsideAll(sh, y, k);
  }

  /** `np.add.at(img, (:, :, y:y_max:stride, k:k_max:stride), cols[:, :, y, k, :, :])` */
  method AddSlice(sh: Shape, m: Matrix, img: array4<real>, y: int, k: int)
    requires sh.Fits() && 0 <= y < sh.kh && 0 <= k < sh.kw && Added(sh, m, img, Flat(y, k, sh.kw))
    requires img.Length0 == sh.batch && img.Length1 == sh.channels
    requires img.Length2 >= sh.height + 2 * sh.padding && img.Length3 >= sh.width + 2 * sh.padding
    modifies img
    ensures Added(sh, m, img, Flat(y, k, sh.kw) + 1)
  {
    hide Row, Col, OnSlice, Strided;
    var oh, ow := sh.OutHeight(), sh.OutWidth();
    ghost var at := Flat(y, k, sh.kw);
    FlatDivides(y, k, sh.kw);
    hide Flat;
    StridedInside(sh, y, k);
    StridedOnce(y, sh.stride, oh);
    StridedOnce(k, sh.stride, ow);
    forall n, c, oy, ox | 0 <= n < sh.batch && 0 <= c < sh.channels && 0 <= oy < oh && 0 <= ox < ow {
      img[n, c, Strided(y, sh.stride, oy), Strided(k, sh.stride, ox)] :=
        img[n, c, Strided(y, sh.stride, oy), Strided(k, sh.stride, ox)] + m(Row(sh, n, oy, ox), Col(sh, c, y, k));
    }
    forall n, c, i, j | 0 <= n < img.Length0 && 0 <= c < img.Length1 && 0 <= i < img.Length2 && 0 <= j < img.Length3
      ensures img[n, c, i, j] == Sum(at + 1, Parts(sh, m, n, c, i, j)) {
      SumNext(at, Parts(sh, m, n, c, i, j));
    }
  }

  lemma SumNext(n: nat, f: int -> real)
    ensures Sum(n + 1, f) == Sum(n, f) + f(n)
  {
  }
}
