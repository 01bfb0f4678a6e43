/**
 * The integer geometry around the image matcher: centring a square window
 * in an image, clipping a block to a target before pasting it, the search
 * window around a location, and padding an image to a square whose side is
 * its diagonal.
 */
module Geometry {
  import opened Rasters

  /** A (row, column) position of a block's top-left corner; it may be negative. */
  type Loc = (int, int)

  /**
   * `get_offset`: the top-left corner of a size-by-size square centred in an
   * image of the given shape. The margins before and after the square differ
   * by at most one on each axis, and the square lies inside the image when
   * it is no larger than the image.
   */
  function GetOffset(shape: Shape, size: int): (off: Loc)
    ensures -1 <= (shape.0 - off.0 - size) - off.0 <= 1
    ensures -1 <= (shape.1 - off.1 - size) - off.1 <= 1
    ensures 0 <= size <= shape.0 ==> 0 <= off.0 && off.0 + size <= shape.0
    ensures 0 <= size <= shape.1 ==> 0 <= off.1 && off.1 + size <= shape.1
  {
    (shape.0 / 2 - size / 2, shape.1 / 2 - size / 2)
  }

  // ----- crop_image -----

  /**
   * Rows (or columns) that survive clipping a block of extent h placed at r
   * in a target of extent n: from max(0, -r) up to min(h, n - r), or none
   * when that range is empty.
   */
  function KeptLen(h: nat, n: nat, r: int): (k: nat)
    ensures k == 0 || Max(0, -r) + k <= h
  {
    if Min(h, n - r) <= Max(0, -r) then 0 else Min(h, n - r) - Max(0, -r)
  }

  /**
   * Lines of `crop_image` on the rows: drop the rows of `small` that would
   * hang below a target of n rows when placed at row r, then the rows above
   * the target; a negative r becomes 0.
   */
  function TrimRows(small: Raster, n: nat, r: int): (res: (Raster, int))
    requires small.Valid()
    ensures res.0.Valid() && res.0.width == small.width && res.1 == Max(r, 0)
    ensures res.0.height == KeptLen(small.height, n, r)
  {
    var s1 := if r + small.height > n then Block(small, 0, -(r + small.height - n), 0, small.width) else small;
    if r < 0 then (Block(s1, -r, s1.height, 0, s1.width), 0) else (s1, r)
  }

  /** The rows that survive are those of `small` from max(0, -r) on. */
  lemma TrimRowsAt(small: Raster, n: nat, r: int, i: int, j: int)
    requires small.Valid()
    requires 0 <= i < TrimRows(small, n, r).0.height && 0 <= j < small.width
    ensures TrimRows(small, n, r).0.px[i][j] == small.px[Max(0, -r) + i][j]
  {
  }

  /** The same on the columns, against a target of n columns, for a block placed at column c. */
  function TrimCols(small: Raster, n: nat, c: int): (res: (Raster, int))
    requires small.Valid()
    ensures res.0.Valid() && res.0.height == small.height && res.1 == Max(c, 0)
    ensures res.0.width == KeptLen(small.width, n, c)
  {
    var s1 := if c + small.width > n then Block(small, 0, small.height, 0, -(c + small.width - n)) else small;
    if c < 0 then (Block(s1, 0, s1.height, -c, s1.width), 0) else (s1, c)
  }

  /** The columns that survive are those of `small` from max(0, -c) on. */
  lemma TrimColsAt(small: Raster, n: nat, c: int, i: int, j: int)
    requires small.Valid()
    requires 0 <= i < small.height && 0 <= j < TrimCols(small, n, c).0.width
    ensures TrimCols(small, n, c).0.px[i][j] == small.px[i][Max(0, -c) + j]
  {
  }

  /**
   * `crop_image(small, large, loc)`: clip the rows, then the columns, of
   * `small` to a target of shape `large` for a block placed at `loc`. The
   * result is the block of `small` from (max(0, -r), max(0, -c)) with the
   * surviving extents, placed at the location with negative coordinates
   * made 0, where it fits inside the target unless it is empty.
   */
  function CropImage(small: Raster, large: Shape, loc: Loc): (res: (Raster, Loc))
    requires small.Valid()
    ensures res.0.Valid()
    ensures res.1 == (Max(loc.0, 0), Max(loc.1, 0))
    ensures res.0.height == KeptLen(small.height, large.0, loc.0)
    ensures res.0.width == KeptLen(small.width, large.1, loc.1)
    ensures res.0.height == 0 || res.1.0 + res.0.height <= large.0
    ensures res.0.width == 0 || res.1.1 + res.0.width <= large.1
  {
    var rows := TrimRows(small, large.0, loc.0);
    var cols := TrimCols(rows.0, large.1, loc.1);
    (cols.0, (rows.1, cols.1))
  }

  /**
   * What `crop_image` keeps: the block of `small` that starts at
   * (max(0, -r), max(0, -c)), cell for cell.
   */
  lemma CropImageCells(small: Raster, large: Shape, loc: Loc)
    requires small.Valid()
    ensures var res := CropImage(small, large, loc);
            forall i, j :: 0 <= i < res.0.height && 0 <= j < res.0.width ==>
              res.0.px[i][j] == small.px[Max(0, -loc.0) + i][Max(0, -loc.1) + j]
  {
    forall i, j | 0 <= i < CropImage(small, large, loc).0.height && 0 <= j < CropImage(small, large, loc).0.width {
      CropAt(small, large, loc, i, j);
    }
  }

  /** One cell of `CropImageCells`. */
  lemma CropAt(small: Raster, large: Shape, loc: Loc, i: int, j: int)
    requires small.Valid()
    requires 0 <= i < CropImage(small, large, loc).0.height && 0 <= j < CropImage(small, large, loc).0.width
    ensures CropImage(small, large, loc).0.px[i][j] == small.px[Max(0, -loc.0) + i][Max(0, -loc.1) + j]
  {
    var rows := TrimRows(small, large.0, loc.0).0;
    TrimColsAt(rows, large.1, loc.1, i, j);
    TrimRowsAt(small, large.0, loc.0, i, Max(0, -loc.1) + j);
  }

  /** A block that already lies inside the target comes back unchanged, at the same place. */
  lemma CropInside(small: Raster, large: Shape, loc: Loc)
    requires small.Valid()
    requires 0 <= loc.0 && loc.0 + small.height <= large.0
    requires 0 <= loc.1 && loc.1 + small.width <= large.1
    ensures CropImage(small, large, loc) == (small, loc)
  {
    var res := CropImage(small, large, loc);
    CropImageCells(small, large, loc);
    forall i | 0 <= i < small.height
      ensures res.0.px[i] == small.px[i]
    {
      assert |res.0.px[i]| == |small.px[i]|;
    }
  }

  // ----- create_template -----

  /**
   * `create_template(image, size, flip_img)`: the size-by-size block centred
   * in the image, mirrored left to right when `flip` is set.
   */
  function CreateTemplate(image: Raster, size: int, flip: bool): (t: Raster)
    requires image.Valid()
    ensures t.Valid()
    ensures 0 <= size <= image.height && size <= image.width ==> t.Dims() == (size, size)
  {
    var off := GetOffset(image.Dims(), size);
    var section := Block(image, off.0, off.0 + size, off.1, off.1 + size);
    if flip then FlipColumns(section) else section
  }

  /**
   * For a square that fits the image, sample (i, j) of the template is the
   * image sample at the centred offset plus (i, j), taken from column
   * size - 1 - j of the square when flipped.
   */
  lemma TemplateAt(image: Raster, size: int, flip: bool, i: int, j: int)
    requires image.Valid() && 0 <= size <= image.height && size <= image.width
    requires 0 <= i < size && 0 <= j < size
    ensures var off := GetOffset(image.Dims(), size);
            CreateTemplate(image, size, flip).px[i][j] ==
            image.px[off.0 + i][off.1 + (if flip then size - 1 - j else j)]
  {
    var off := GetOffset(image.Dims(), size);
    BlockAt(image, off.0, off.0 + size, off.1, off.1 + size, i, if flip then size - 1 - j else j);
  }

  /** Mirroring the flipped template gives back the plain one. */
  lemma TemplateFlip(image: Raster, size: int)
    requires image.Valid()
    ensures FlipColumns(CreateTemplate(image, size, true)) == CreateTemplate(image, size, false)
  {
    var off := GetOffset(image.Dims(), size);
    FlipInvolution(Block(image, off.0, off.0 + size, off.1, off.1 + size));
  }

  // ----- offsets -----

  /** The search window of `offsets`: (min row, max row, min column, max column). */
  datatype Window = Window(minY: int, maxY: int, minX: int, maxX: int)

  /**
   * `offsets(large, small, loc)`: a window reaching 200 before and 400 past
   * the small image's extent at `loc`, cut to the large image. It never
   * leaves the large image, never reaches further than those margins, and
   * contains the small image's extent whenever that lies in the large image.
   */
  function Offsets(large: Shape, small: Shape, loc: Loc): (win: Window)
    ensures 0 <= win.minY && win.maxY <= large.0
    ensures 0 <= win.minX && win.maxX <= large.1
    ensures win.minY == Max(0, loc.0 - 200) && win.maxY == Min(large.0, loc.0 + small.0 + 400)
    ensures win.minX == Max(0, loc.1 - 200) && win.maxX == Min(large.1, loc.1 + small.1 + 400)
    ensures 0 <= loc.0 && loc.0 + small.0 <= large.0 ==> win.minY <= loc.0 && loc.0 + small.0 <= win.maxY
    ensures 0 <= loc.1 && loc.1 + small.1 <= large.1 ==> win.minX <= loc.1 && loc.1 + small.1 <= win.maxX
  {
    var minY := if loc.0 > 200 then loc.0 - 200 else 0;
    var maxY := if loc.0 + small.0 + 400 < large.0 then loc.0 + small.0 + 400 else large.0;
    var minX := if loc.1 > 200 then loc.1 - 200 else 0;
    var maxX := if loc.1 + small.1 + 400 < large.1 then loc.1 + small.1 + 400 else large.1;
    Window(minY, maxY, minX, maxX)
  }

  // ----- pad_to_square -----

  /** The integer square root: the largest r with r * r <= n. */
  function ISqrt(n: nat): (r: nat)
    ensures r * r <= n < (r + 1) * (r + 1)
  {
    if n < 4 then (if n == 0 then 0 else 1)
    else
      var q := ISqrt(n / 4);
      RootStep(n, q);
      var h := 2 * q;
      if (h + 1) * (h + 1) <= n then h + 1 else h
  }

  /** Doubling the root of n / 4 gives a root of n to within one. */
  lemma RootStep(n: nat, q: nat)
    requires q * q <= n / 4 < (q + 1) * (q + 1)
    ensures (2 * q) * (2 * q) <= n < (2 * q + 2) * (2 * q + 2)
  {
    assert (2 * q) * (2 * q) == 4 * (q * q);
    assert (2 * q + 2) * (2 * q + 2) == 4 * ((q + 1) * (q + 1));
  }

  /**
   * Side of the square `pad_to_square` builds: the image's diagonal rounded
   * down, which is at least its height and its width.
   */
  function Side(h: nat, w: nat): (side: nat)
    ensures h <= side && w <= side
  {
    var r := ISqrt(h * h + w * w);
    RootBound(h, r); RootBound(w, r);
    r
  }

  /** The side is the floor of the diagonal: its square fits under h^2 + w^2 and the next one does not. */
  lemma SideIsDiagonal(h: nat, w: nat)
    ensures Side(h, w) * Side(h, w) <= h * h + w * w < (Side(h, w) + 1) * (Side(h, w) + 1)
  {
  }

  /** A number whose square is below (r + 1)^2 is at most r. */
  lemma RootBound(a: nat, r: nat)
    requires a * a < (r + 1) * (r + 1)
    ensures a <= r
  {
  }

  /** The byte a sample becomes under `astype('uint8')`: a sample already in 0..255 is kept. */
  function Byte(x: int): (b: int)
    ensures 0 <= b < 256
    ensures 0 <= x < 256 ==> b == x
  {
    x % 256
  }

  /** The image with every sample converted to a byte. */
  function Bytes(image: Raster): (b: Raster)
    requires image.Valid()
    ensures b.Valid() && b.Dims() == image.Dims()
    ensures forall i, j :: 0 <= i < b.height && 0 <= j < b.width ==> b.px[i][j] == Byte(image.px[i][j])
  {
    Raster(image.height, image.width,
      seq(image.height, i requires 0 <= i < image.height =>
        seq(image.width, j requires 0 <= j < image.width => Byte(image.px[i][j]))))
  }

  /** Every sample of the image is a byte, as in an 8-bit image. */
  ghost predicate Is8Bit(image: Raster)
    requires image.Valid()
  {
    forall i, j :: 0 <= i < image.height && 0 <= j < image.width ==> 0 <= image.px[i][j] < 256
  }

  /** Converting an 8-bit image to bytes leaves it unchanged. */
  lemma BytesOf8Bit(image: Raster)
    requires image.Valid() && Is8Bit(image)
    ensures Bytes(image) == image
  {
    var b := Bytes(image);
    forall i | 0 <= i < image.height
      ensures b.px[i] == image.px[i]
    {
      assert |b.px[i]| == |image.px[i]|;
    }
  }

  /** Where `pad_to_square` places the image in a square of the given side. */
  function PadAt(side: nat, h: nat, w: nat): (at: (nat, nat))
    requires h <= side && w <= side
    ensures at.0 + h <= side && at.1 + w <= side
    ensures -1 <= (side - at.0 - h) - at.0 <= 1 && -1 <= (side - at.1 - w) - at.1 <= 1
  {
    ((side - h) / 2, (side - w) / 2)
  }

  /** A side-by-side raster of zeros with `block` written with its top-left corner at (y, x). */
  function Embed(block: Raster, side: nat, y: nat, x: nat): (e: Raster)
    requires block.Valid() && y + block.height <= side && x + block.width <= side
    ensures e.Valid() && e.Dims() == (side, side)
  {
    Raster(side, side,
      seq(side, i requires 0 <= i < side =>
        seq(side, j requires 0 <= j < side =>
          if InRect(i, j, y, x, block.height, block.width) then block.px[i - y][j - x] else 0)))
  }

  /** Cutting the block's place back out of the embedding gives the block. */
  lemma UnEmbed(block: Raster, side: nat, y: nat, x: nat)
    requires block.Valid() && y + block.height <= side && x + block.width <= side
    ensures Block(Embed(block, side, y, x), y, y + block.height, x, x + block.width) == block
  {
    var b := Block(Embed(block, side, y, x), y, y + block.height, x, x + block.width);
    forall i | 0 <= i < block.height
      ensures b.px[i] == block.px[i]
    {
      UnEmbedRow(block, side, y, x, i);
    }
  }

  lemma UnEmbedRow(block: Raster, side: nat, y: nat, x: nat, i: int)
    requires block.Valid() && y + block.height <= side && x + block.width <= side && 0 <= i < block.height
    ensures Block(Embed(block, side, y, x), y, y + block.height, x, x + block.width).px[i] == block.px[i]
  {
    var e := Embed(block, side, y, x);
    forall j | 0 <= j < block.width
      ensures Block(e, y, y + block.height, x, x + block.width).px[i][j] == block.px[i][j]
    {
      BlockAt(e, y, y + block.height, x, x + block.width, i, j);
      assert InRect(y + i, x + j, y, x, block.height, block.width);
      assert e.px[y + i][x + j] == block.px[i][j];
    }
  }

  /**
   * What `pad_to_square` returns for a square of the given side: zeros, with
   * the image's bytes written at PadAt.
   */
  function Padded(image: Raster, side: nat): (p: Raster)
    requires image.Valid() && image.height <= side && image.width <= side
    ensures p.Valid() && p.Dims() == (side, side)
  {
    var at := PadAt(side, image.height, image.width);
    Embed(Bytes(image), side, at.0, at.1)
  }

  /** Cutting the image's place back out of the padded square gives the image's bytes. */
  lemma UnpadPadded(image: Raster, side: nat)
    requires image.Valid() && image.height <= side && image.width <= side
    ensures var at := PadAt(side, image.height, image.width);
            Block(Padded(image, side), at.0, at.0 + image.height, at.1, at.1 + image.width) == Bytes(image)
  {
    var at := PadAt(side, image.height, image.width);
    UnEmbed(Bytes(image), side, at.0, at.1);
  }

  /** An 8-bit image comes back unchanged from its place in the padded square. */
  lemma UnpadRestores(image: Raster, side: nat)
    requires image.Valid() && Is8Bit(image) && image.height <= side && image.width <= side
    ensures var at := PadAt(side, image.height, image.width);
            Block(Padded(image, side), at.0, at.0 + image.height, at.1, at.1 + image.width) == image
  {
    UnpadPadded(image, side);
    BytesOf8Bit(image);
  }

  /** Every cell of the padded square outside the image's place is 0. */
  lemma PaddedMargin(image: Raster, side: nat, i: int, j: int)
    requires image.Valid() && image.height <= side && image.width <= side
    requires 0 <= i < side && 0 <= j < side
    requires var at := PadAt(side, image.height, image.width);
             !InRect(i, j, at.0, at.1, image.height, image.width)
    ensures Padded(image, side).px[i][j] == 0
  {
  }

  /**
   * `pad_to_square`: allocate a zero square of side Side(h, w), paste the
   * image into it at PadAt and convert the samples to bytes.
   */
  method PadToSquare(image: Raster) returns (padded: Raster)
    requires image.Valid()
    ensures padded == Padded(image, Side(image.height, image.width))
  {
    var side := Side(image.height, image.width);
    padded := PadInto(image, side);
  }

  /** The body of `pad_to_square` once the side is known. */
  method PadInto(image: Raster, side: nat) returns (padded: Raster)
    requires image.Valid() && image.height <= side && image.width <= side
    ensures padded == Padded(image, side)
  {
    var temp := new int[side, side]((i, j) => 0);
    var y, x := (side - image.height) / 2, (side - image.width) / 2;
    Paste(temp, image, y, x);
    var frozen := Freeze(temp);
    PastedIsPadded(image, side, frozen);
    padded := Bytes(frozen);
  }

  /** A zero square with the image pasted at PadAt becomes Padded once converted to bytes. */
  lemma PastedIsPadded(image: Raster, side: nat, pasted: Raster)
    requires image.Valid() && image.height <= side && image.width <= side
    requires pasted.Valid() && pasted.Dims() == (side, side)
    requires var at := PadAt(side, image.height, image.width);
             forall i, j :: 0 <= i < side && 0 <= j < side ==>
               pasted.px[i][j] == if InRect(i, j, at.0, at.1, image.height, image.width)
                                  then image.px[i - at.0][j - at.1] else 0
    ensures Bytes(pasted) == Padded(image, side)
  {
    var b, p := Bytes(pasted), Padded(image, side);
    forall i | 0 <= i < side
      ensures b.px[i] == p.px[i]
    {
      assert |b.px[i]| == |p.px[i]|;
    }
  }
}
