/**
 * Two-dimensional rasters (numpy arrays of rank 2) as values, with numpy's
 * rules for basic slicing and for writing a block into a slice of an array.
 */
module Rasters {

  /** numpy's `shape` of a 2-D array: (rows, cols). */
  type Shape = (nat, nat)

  /** A 2-D array of samples: `px[r][c]` is the sample at row r, column c. */
  datatype Raster = Raster(height: nat, width: nat, px: seq<seq<int>>) {

    ghost predicate Valid() {
      |px| == height && forall r :: 0 <= r < height ==> |px[r]| == width
    }

    function Dims(): Shape {
      (height, width)
    }
  }

  function Max(a: int, b: int): int { if a < b then b else a }
  function Min(a: int, b: int): int { if a < b then a else b }

  /** `np.zeros((h, w))`. */
  function Zeros(h: nat, w: nat): (z: Raster)
    ensures z.Valid() && z.Dims() == (h, w)
    ensures forall r, c :: 0 <= r < h && 0 <= c < w ==> z.px[r][c] == 0
  {
    Raster(h, w, seq(h, _ => seq(w, _ => 0)))
  }

  /**
   * Where a slice bound `i` lands in a dimension of length n: a negative bound
   * counts from the end, and a bound outside [0, n] is clipped.
   */
  function Clamp(i: int, n: nat): (k: nat)
    ensures k <= n
    ensures 0 <= i <= n ==> k == i
    ensures i > n ==> k == n
    ensures -(n as int) <= i < 0 ==> k == n + i
    ensures i < -(n as int) ==> k == 0
  {
    if i < -(n as int) then 0 else if i < 0 then n + i else if i < n then i else n
  }

  /** Number of elements selected by `x[start:stop]` in a dimension of length n. */
  function SliceLen(n: nat, start: int, stop: int): (k: nat)
    ensures Clamp(start, n) + k <= n
  {
    if Clamp(stop, n) < Clamp(start, n) then 0 else Clamp(stop, n) - Clamp(start, n)
  }

  /** `img[r0:r1, c0:c1]`, with Python's rules for negative and out-of-range bounds. */
  function Block(img: Raster, r0: int, r1: int, c0: int, c1: int): (b: Raster)
    requires img.Valid()
    ensures b.Valid()
    ensures b.height == SliceLen(img.height, r0, r1) && b.width == SliceLen(img.width, c0, c1)
  {
    var rlo, clo := Clamp(r0, img.height), Clamp(c0, img.width);
    var h, w := SliceLen(img.height, r0, r1), SliceLen(img.width, c0, c1);
    Raster(h, w, seq(h, i requires 0 <= i < h => img.px[rlo + i][clo .. clo + w]))
  }

  /** Sample (i, j) of `img[r0:r1, c0:c1]` is the sample of img at the clipped offsets. */
  lemma BlockAt(img: Raster, r0: int, r1: int, c0: int, c1: int, i: int, j: int)
    requires img.Valid()
    requires 0 <= i < Block(img, r0, r1, c0, c1).height && 0 <= j < Block(img, r0, r1, c0, c1).width
    ensures Block(img, r0, r1, c0, c1).px[i][j] == img.px[Clamp(r0, img.height) + i][Clamp(c0, img.width) + j]
  {
  }

  /** `cv2.flip(img, 1)`: mirror about the vertical axis, i.e. reverse every row. */
  function FlipColumns(img: Raster): (f: Raster)
    requires img.Valid()
    ensures f.Valid() && f.Dims() == img.Dims()
    ensures forall i, j :: 0 <= i < f.height && 0 <= j < f.width ==>
              f.px[i][j] == img.px[i][img.width - 1 - j]
  {
    Raster(img.height, img.width,
      seq(img.height, i requires 0 <= i < img.height =>
        seq(img.width, j requires 0 <= j < img.width => img.px[i][img.width - 1 - j])))
  }

  /** Mirroring twice gives back the original raster. */
  lemma FlipInvolution(img: Raster)
    requires img.Valid()
    ensures FlipColumns(FlipColumns(img)) == img
  {
    var f := FlipColumns(FlipColumns(img));
    forall i | 0 <= i < img.height
      ensures f.px[i] == img.px[i]
    {
      assert |f.px[i]| == |img.px[i]|;
      forall j | 0 <= j < img.width
        ensures f.px[i][j] == img.px[i][j]
      {
        assert FlipColumns(img).px[i][img.width - 1 - j] == img.px[i][j];
      }
    }
  }

  /** Column-wise concatenation `np.hstack((a, b))` of two rasters of equal height. */
  function HCat(a: Raster, b: Raster): (r: Raster)
    requires a.Valid() && b.Valid() && a.height == b.height
    ensures r.Valid() && r.Dims() == (a.height, a.width + b.width)
  {
    Raster(a.height, a.width + b.width,
      seq(a.height, i requires 0 <= i < a.height => a.px[i] + b.px[i]))
  }

  /** Cutting a raster at column k and concatenating the two halves gives it back. */
  lemma HCatOfSplit(m: Raster, k: nat)
    requires m.Valid() && k <= m.width
    ensures HCat(Block(m, 0, m.height, 0, k), Block(m, 0, m.height, k, m.width)) == m
  {
    var left, right := Block(m, 0, m.height, 0, k), Block(m, 0, m.height, k, m.width);
    var r := HCat(left, right);
    forall i | 0 <= i < m.height
      ensures r.px[i] == m.px[i]
    {
      assert left.px[i] == m.px[i][..k];
      assert right.px[i] == m.px[i][k..];
      assert m.px[i][..k] + m.px[i][k..] == m.px[i];
    }
  }

  /** The contents of a mutable 2-D array as a raster value. */
  function Freeze(a: array2<int>): (r: Raster)
    reads a
    ensures r.Valid() && r.Dims() == (a.Length0, a.Length1)
    ensures forall i, j :: 0 <= i < a.Length0 && 0 <= j < a.Length1 ==> r.px[i][j] == a[i, j]
  {
    Raster(a.Length0, a.Length1,
      seq(a.Length0, i requires 0 <= i < a.Length0 reads a =>
        seq(a.Length1, j requires 0 <= j < a.Length1 reads a => a[i, j])))
  }

  /** Cell (i, j) lies in the h-by-w rectangle whose top-left corner is (row, col). */
  predicate InRect(i: int, j: int, row: int, col: int, h: int, w: int) {
    row <= i < row + h && col <= j < col + w
  }

  /**
   * `target[row:row+h, col:col+w] = block` for a block that numpy accepts at that
   * slice: the block is empty or lies inside the target. Exactly the cells under
   * the block change, each to the block's sample.
   */
  method Paste(target: array2<int>, block: Raster, row: nat, col: nat)
    requires block.Valid()
    requires block.height == 0 || block.width == 0 ||
             (row + block.height <= target.Length0 && col + block.width <= target.Length1)
    modifies target
    ensures forall i, j :: 0 <= i < target.Length0 && 0 <= j < target.Length1 ==>
              target[i, j] == if InRect(i, j, row, col, block.height, block.width)
                              then block.px[i - row][j - col] else old(target[i, j])
  {
    var i := 0;
    while i < block.height
      invariant 0 <= i <= block.height
      invariant forall y, x :: 0 <= y < target.Length0 && 0 <= x < target.Length1 ==>
                  target[y, x] == if InRect(y, x, row, col, i, block.width)
                                  then block.px[y - row][x - col] else old(target[y, x])
    {
      var j := 0;
      while j < block.width
        invariant 0 <= j <= block.width
        invariant forall y, x :: 0 <= y < target.Length0 && 0 <= x < target.Length1 ==>
                    target[y, x] == if InRect(y, x, row, col, i, block.width) || (y == row + i && col <= x < col + j)
                                    then block.px[y - row][x - col] else old(target[y, x])
      {
        target[row + i, col + j] := block.px[i][j];
        j := j + 1;
      }
      i := i + 1;
    }
  }
}
