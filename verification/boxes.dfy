/**
 * The bounding box of one flood-filled component (class Bounding_Box in
 * support_classes.py), and the rule that cuts an over-wide box into strips.
 */
module Boxes {
  import opened Rasters

  /** A pixel position as the box code takes it: (x, y) = (column, row). */
  type Point = (int, int)

  /** The four bounds of a box, inclusive on both ends. */
  datatype Bounds = Bounds(xMin: int, xMax: int, yMin: int, yMax: int) {

    predicate Ordered() {
      xMin <= xMax && yMin <= yMax
    }

    predicate Contains(p: Point) {
      xMin <= p.0 <= xMax && yMin <= p.1 <= yMax
    }

    /** The bounds hold every point of pts, and each bound is the coordinate of one of them. */
    ghost predicate Tight(pts: set<Point>) {
      && Ordered()
      && (forall p :: p in pts ==> Contains(p))
      && (exists p :: p in pts && p.0 == xMin) && (exists p :: p in pts && p.0 == xMax)
      && (exists p :: p in pts && p.1 == yMin) && (exists p :: p in pts && p.1 == yMax)
    }
  }

  /** The state of a box that the segmenter hands on: its bounds and its mask. */
  datatype Box = Box(xMin: int, xMax: int, yMin: int, yMax: int, mask: Raster) {

    function Extent(): Bounds {
      Bounds(xMin, xMax, yMin, yMax)
    }
  }

  /**
   * The bounds after `update_boundaries(p)`. Each axis tests the lower bound
   * first and only looks at the upper bound when the lower one did not move.
   */
  function Grow(b: Bounds, p: Point): (r: Bounds)
    ensures r.xMin <= b.xMin && r.yMin <= b.yMin
    ensures r.xMax >= b.xMax && r.yMax >= b.yMax
    ensures b.Contains(p) ==> r == b
    ensures b.Ordered() ==> r.Ordered() && r.Contains(p)
    ensures b.Ordered() ==>
              r == Bounds(Min(b.xMin, p.0), Max(b.xMax, p.0), Min(b.yMin, p.1), Max(b.yMax, p.1))
  {
    var (xMin, xMax) :=
      if p.0 < b.xMin then (p.0, b.xMax)
      else if p.0 > b.xMax then (b.xMin, p.0)
      else (b.xMin, b.xMax);
    var (yMin, yMax) :=
      if p.1 < b.yMin then (p.1, b.yMax)
      else if p.1 > b.yMax then (b.yMin, p.1)
      else (b.yMin, b.yMax);
    Bounds(xMin, xMax, yMin, yMax)
  }

  /** The bounds after `update_boundaries` has been called with each point of ps in turn. */
  function Hull(b: Bounds, ps: seq<Point>): Bounds
  {
    if ps == [] then b else Grow(Hull(b, ps[..|ps| - 1]), ps[|ps| - 1])
  }

  /** Growing tight bounds by a point gives tight bounds around the points and it. */
  lemma TightGrow(b: Bounds, pts: set<Point>, p: Point)
    requires b.Tight(pts)
    ensures Grow(b, p).Tight(pts + {p})
  {
    var h, all := Grow(b, p), pts + {p};
    var a :| a in pts && a.0 == b.xMin;
    var c :| c in pts && c.0 == b.xMax;
    assert exists q :: q in all && q.0 == h.xMin by {
      if h.xMin == b.xMin { assert a in all; } else { assert p in all; }
    }
    assert exists q :: q in all && q.0 == h.xMax by {
      if h.xMax == b.xMax { assert c in all; } else { assert p in all; }
    }
    var d :| d in pts && d.1 == b.yMin;
    var e :| e in pts && e.1 == b.yMax;
    assert exists q :: q in all && q.1 == h.yMin by {
      if h.yMin == b.yMin { assert d in all; } else { assert p in all; }
    }
    assert exists q :: q in all && q.1 == h.yMax by {
      if h.yMax == b.yMax { assert e in all; } else { assert p in all; }
    }
  }

  /**
   * A box created at point s and then grown by every point of ps has the
   * tightest bounds around s and ps: all of them lie inside, and every bound
   * is the coordinate of one of them.
   */
  lemma {:induction false} HullTight(s: Point, ps: seq<Point>)
    ensures Hull(Bounds(s.0, s.0, s.1, s.1), ps).Tight((set p | p in ps) + {s})
  {
    if ps != [] {
      var init, last := ps[..|ps| - 1], ps[|ps| - 1];
      HullTight(s, init);
      TightGrow(Hull(Bounds(s.0, s.0, s.1, s.1), init), (set p | p in init) + {s}, last);
      assert (set p | p in ps) + {s} == (set p | p in init) + {s} + {last} by {
        assert ps == init + [last];
      }
    } else {
      assert s in (set p | p in ps) + {s};
    }
  }

  class BoundingBox {
    var xMin: int
    var xMax: int
    var yMin: int
    var yMax: int
    /** 0/255 mask of the component's cells; empty until CreateMask runs. */
    var mask: Raster
    /** Image block under the box; empty until CreateContents runs. */
    var contents: Raster

    function Extent(): Bounds
      reads this
    {
      Bounds(xMin, xMax, yMin, yMax)
    }

    function Value(): Box
      reads this
    {
      Box(xMin, xMax, yMin, yMax, mask)
    }

    /** A box at one position: both bounds of each axis are that position's coordinate. */
    constructor (position: Point)
      ensures Extent() == Bounds(position.0, position.0, position.1, position.1)
      ensures Extent().Ordered() && Extent().Contains(position)
      ensures mask == Zeros(0, 0) && contents == Zeros(0, 0)
    {
      xMin, xMax := position.0, position.0;
      yMin, yMax := position.1, position.1;
      mask, contents := Zeros(0, 0), Zeros(0, 0);
    }

    /** Widens the box just enough to contain `position`; the mask is untouched. */
    method UpdateBoundaries(position: Point)
      modifies this
      ensures Extent() == Grow(old(Extent()), position)
      ensures old(Extent()).Ordered() ==> Extent().Ordered() && Extent().Contains(position)
      ensures old(Extent()).Contains(position) ==> Extent() == old(Extent())
      ensures mask == old(mask) && contents == old(contents)
    {
      if position.0 < xMin {
        xMin := position.0;
      } else if position.0 > xMax {
        xMax := position.0;
      }
      if position.1 < yMin {
        yMin := position.1;
      } else if position.1 > yMax {
        yMax := position.1;
      }
    }

    /**
     * The image block of rows yMin..yMax and columns xMin..xMax. For a box that
     * lies inside the image it has the box's extent and the image's samples.
     */
    method CreateContents(image: Raster)
      requires image.Valid()
      modifies this`contents
      ensures contents == Block(image, yMin, yMax + 1, xMin, xMax + 1)
      ensures Extent().Ordered() && 0 <= xMin && xMax < image.width && 0 <= yMin && yMax < image.height ==>
                contents.Dims() == (yMax - yMin + 1, xMax - xMin + 1) &&
                forall i, j :: 0 <= i < contents.height && 0 <= j < contents.width ==>
                  contents.px[i][j] == image.px[yMin + i][xMin + j]
    {
      contents := Block(image, yMin, yMax + 1, xMin, xMax + 1);
    }

    /**
     * A fresh zero mask of the box's extent, set to 255 at every given position,
     * taken relative to the box's top-left corner.
     */
    method CreateMask(positions: seq<Point>)
      requires yMin <= yMax + 1 && xMin <= xMax + 1
      requires forall p :: p in positions ==> Extent().Contains(p)
      modifies this`mask
      ensures mask.Valid() && mask.Dims() == (yMax - yMin + 1, xMax - xMin + 1)
      ensures forall r, c :: 0 <= r < mask.height && 0 <= c < mask.width ==>
                mask.px[r][c] == if (c + xMin, r + yMin) in positions then 255 else 0
    {
      var a := new int[yMax - yMin + 1, xMax - xMin + 1]((i, j) => 0);
      var k := 0;
      while k < |positions|
        invariant 0 <= k <= |positions|
        invariant forall r, c :: 0 <= r < a.Length0 && 0 <= c < a.Length1 ==>
                    a[r, c] == if (c + xMin, r + yMin) in positions[..k] then 255 else 0
      {
        var p := positions[k];
        assert p in positions && Extent().Contains(p);
        assert positions[..k + 1] == positions[..k] + [p];
        a[p.1 - yMin, p.0 - xMin] := 255;
        k := k + 1;
      }
      assert positions[..k] == positions;
      mask := Freeze(a);
    }
  }

  // ----- Noise filter and strip splitting (support_functions.py:58-72) -----

  /** Width, in mask columns, of one strip cut from an over-wide box. */
  const StripWidth := 500

  /** A box survives the noise filter when both extents exceed this. */
  const NoiseExtent := 20

  predicate Kept(b: Box) {
    b.xMax - b.xMin > NoiseExtent && b.yMax - b.yMin > NoiseExtent
  }

  /** The strip cut from the left of a box: its first 500 mask columns. */
  function Strip(b: Box): Box
    requires b.mask.Valid()
  {
    Box(b.xMin, b.xMin + StripWidth, b.yMin, b.yMax,
        Block(b.mask, 0, b.mask.height, 0, StripWidth))
  }

  /** What is left of a box once a strip has been cut from its left. */
  function Rest(b: Box): (r: Box)
    requires b.mask.Valid()
    ensures r.mask.Valid() && r.mask.height == b.mask.height
  {
    b.(xMin := b.xMin + StripWidth, mask := Block(b.mask, 0, b.mask.height, StripWidth, b.mask.width))
  }

  /** n strips cut one after another from the left, then what is left. */
  function Strips(b: Box, n: nat): (s: seq<Box>)
    requires b.mask.Valid()
    ensures |s| == n + 1
    ensures forall k :: 0 <= k < |s| ==> s[k].mask.Valid() && s[k].mask.height == b.mask.height
    decreases n
  {
    if n == 0 then [b] else [Strip(b)] + Strips(Rest(b), n - 1)
  }

  /** What is left of b after i strips have been cut from its left. */
  function Cut(b: Box, i: nat): (r: Box)
    requires b.mask.Valid()
    ensures r.mask.Valid() && r.mask.height == b.mask.height
    decreases i
  {
    if i == 0 then b else Rest(Cut(b, i - 1))
  }

  lemma {:induction false} CutShift(b: Box, k: nat)
    requires b.mask.Valid()
    ensures Cut(Rest(b), k) == Cut(b, k + 1)
    decreases k
  {
    if k > 0 {
      CutShift(b, k - 1);
    }
  }

  /** Piece k of n strips cut from b is a strip of what was left after k cuts; the last piece is what is left after n. */
  lemma {:induction false} StripsCut(b: Box, n: nat, k: nat)
    requires b.mask.Valid() && k <= n
    ensures Strips(b, n)[k] == if k < n then Strip(Cut(b, k)) else Cut(b, n)
    decreases n
  {
    if k > 0 {
      StripsCut(Rest(b), n - 1, k - 1);
      CutShift(b, k - 1);
      CutShift(b, n - 1);
    }
  }

  lemma StripsCutAll(b: Box, n: nat)
    requires b.mask.Valid()
    ensures forall k {:trigger Strips(b, n)[k]} :: 0 <= k < n ==> Strips(b, n)[k] == Strip(Cut(b, k))
    ensures Strips(b, n)[n] == Cut(b, n)
  {
    forall k | 0 <= k <= n
      ensures Strips(b, n)[k] == if k < n then Strip(Cut(b, k)) else Cut(b, n)
    {
      StripsCut(b, n, k);
    }
  }

  /** The boxes emitted for one box wider than 500 mask columns. */
  function Split(b: Box): seq<Box>
    requires b.mask.Valid()
  {
    Strips(b, b.mask.width / StripWidth)
  }

  /** The boxes get_letter_boundries appends for one flood-filled box. */
  function Emit(b: Box, splitBoxes: bool): seq<Box>
    requires b.mask.Valid()
  {
    if !Kept(b) then []
    else if splitBoxes && b.mask.width > StripWidth then Split(b)
    else [b]
  }

  /** The k-th piece of n strips cut from b: where it sits and which mask columns it holds. */
  lemma {:induction false} StripsAt(b: Box, n: nat, k: nat)
    requires b.mask.Valid() && StripWidth * n <= b.mask.width && k <= n
    ensures var s := Strips(b, n)[k];
      && s.yMin == b.yMin && s.yMax == b.yMax
      && s.xMin == b.xMin + StripWidth * k
      && (k < n ==> s.xMax == s.xMin + StripWidth && s.mask.width == StripWidth)
      && (k == n ==> s.xMax == b.xMax && s.mask.width == b.mask.width - StripWidth * n)
      && forall i, j :: 0 <= i < s.mask.height && 0 <= j < s.mask.width ==>
           s.mask.px[i][j] == b.mask.px[i][StripWidth * k + j]
    decreases n
  {
    if k > 0 {
      StripsAt(Rest(b), n - 1, k - 1);
    }
  }

  /**
   * Splitting a box of W mask columns gives W / 500 strips of exactly 500
   * columns, each one 500 further right, then a remainder of W % 500 columns
   * that keeps the original xMax; heights and vertical bounds never change.
   */
  lemma SplitShape(b: Box)
    requires b.mask.Valid()
    ensures var n := b.mask.width / StripWidth; var s := Split(b);
      && |s| == n + 1
      && (forall k :: 0 <= k < n ==>
            && s[k].xMin == b.xMin + StripWidth * k && s[k].xMax == s[k].xMin + StripWidth
            && s[k].yMin == b.yMin && s[k].yMax == b.yMax
            && s[k].mask.Dims() == (b.mask.height, StripWidth))
      && s[n].xMin == b.xMin + StripWidth * n && s[n].xMax == b.xMax
      && s[n].yMin == b.yMin && s[n].yMax == b.yMax
      && s[n].mask.Dims() == (b.mask.height, b.mask.width % StripWidth)
  {
    var n := b.mask.width / StripWidth;
    forall k | 0 <= k <= n {
      StripsAt(b, n, k);
    }
  }

  /**
   * For a box whose mask matches its extent (width == xMax - xMin + 1), every
   * strip claims 501 columns for a 500-column mask, and a remainder of zero
   * columns has xMin == xMax + 1: the bounds do not shrink with the mask.
   */
  lemma SplitBoundsAsWritten(b: Box)
    requires b.mask.Valid() && b.mask.width == b.xMax - b.xMin + 1
    ensures var n := b.mask.width / StripWidth; var s := Split(b);
      && (forall k :: 0 <= k < n ==> s[k].xMax - s[k].xMin + 1 == s[k].mask.width + 1)
      && s[n].mask.width == s[n].xMax - s[n].xMin + 1
      && (b.mask.width % StripWidth == 0 ==> s[n].xMin == s[n].xMax + 1)
  {
    SplitShape(b);
  }

  /** The masks of a sequence of boxes, in order. */
  function Masks(bs: seq<Box>): (ms: seq<Raster>)
    ensures |ms| == |bs| && forall k :: 0 <= k < |bs| ==> ms[k] == bs[k].mask
  {
    seq(|bs|, k requires 0 <= k < |bs| => bs[k].mask)
  }

  /** Column-wise concatenation of a non-empty sequence of rasters of one height. */
  function ConcatCols(ms: seq<Raster>): (r: Raster)
    requires |ms| > 0
    requires forall k :: 0 <= k < |ms| ==> ms[k].Valid() && ms[k].height == ms[0].height
    ensures r.Valid() && r.height == ms[0].height
  {
    if |ms| == 1 then ms[0] else HCat(ms[0], ConcatCols(ms[1..]))
  }

  lemma {:induction false} StripsConcat(b: Box, n: nat)
    requires b.mask.Valid() && StripWidth * n <= b.mask.width
    ensures ConcatCols(Masks(Strips(b, n))) == b.mask
    decreases n
  {
    if n > 0 {
      StripsConcat(Rest(b), n - 1);
      HCatOfSplit(b.mask, StripWidth);
      assert Masks(Strips(b, n))[1..] == Masks(Strips(Rest(b), n - 1));
    }
  }

  /** The strips' masks, placed side by side in emission order, rebuild the original mask. */
  lemma SplitConcat(b: Box)
    requires b.mask.Valid()
    ensures ConcatCols(Masks(Split(b))) == b.mask
  {
    StripsConcat(b, b.mask.width / StripWidth);
  }
}
