/**
 * The two drivers that carry the small image's labels onto the large
 * image: `Mapper` (pastes into a label map the caller supplies) and
 * `Match_Handler` (the older variant, which pads its inputs to squares and
 * pastes into a fresh zero map). Both refuse to orient before images are
 * mounted and to map before orientation. The angle search, rotation and
 * template-size ratio are outside the model: their results are parameters.
 */
module Mapping {
  import opened Rasters
  import opened Geometry
  import opened Matching

  /**
   * Where `map_labels` puts the labels' top-left corner: the matched point
   * is (x, y) and marks the template's corner, which sits `off` into the
   * labels, so the labels start at (y - off_y, x - off_x) as (row, column).
   */
  function LabelLoc(optimalLoc: Location, off: Loc): (at: Loc)
    ensures at.0 + off.0 == optimalLoc.1 && at.1 + off.1 == optimalLoc.0
  {
    (optimalLoc.1 - off.0, optimalLoc.0 - off.1)
  }

  /**
   * The block `map_labels` writes and where: the labels, mirrored when the
   * optimal flip is 1, cropped to the target against the location that puts
   * the template's corner on the matched point. The template offset is taken
   * from a raster of shape `offsetShape` with side `size`.
   */
  function Placement(labels: Raster, flip: int, optimalLoc: Location, offsetShape: Shape, size: int, target: Shape): (res: (Raster, Loc))
    requires labels.Valid()
    ensures res.0.Valid()
    ensures 0 <= res.1.0 && 0 <= res.1.1
    ensures res.0.height == 0 || res.0.width == 0 ||
            (res.1.0 + res.0.height <= target.0 && res.1.1 + res.0.width <= target.1)
  {
    var oriented := if flip == 1 then FlipColumns(labels) else labels;
    CropImage(oriented, target, LabelLoc(optimalLoc, GetOffset(offsetShape, size)))
  }

  /**
   * When the oriented labels lie wholly inside the target at the computed
   * location, the whole of them is written there.
   */
  lemma PlacementWhole(labels: Raster, flip: int, optimalLoc: Location, offsetShape: Shape, size: int, target: Shape)
    requires labels.Valid()
    requires var at := LabelLoc(optimalLoc, GetOffset(offsetShape, size));
             0 <= at.0 && at.0 + labels.height <= target.0 && 0 <= at.1 && at.1 + labels.width <= target.1
    ensures Placement(labels, flip, optimalLoc, offsetShape, size, target) ==
            (if flip == 1 then FlipColumns(labels) else labels, LabelLoc(optimalLoc, GetOffset(offsetShape, size)))
  {
    CropInside(if flip == 1 then FlipColumns(labels) else labels, target, LabelLoc(optimalLoc, GetOffset(offsetShape, size)));
  }

  /** `Mapper` (the current driver). */
  class Mapper {
    var large: Raster
    var small: Raster
    var smallLabels: Raster
    var mounted: bool
    var oriented: bool
    var optimalAngle: real
    var optimalLoc: Location
    var optimalFlip: int
    /** The label map of the last `map_labels`; none before it. */
    var largeLabels: array2?<int>

    constructor ()
      ensures !mounted && !oriented
      ensures optimalAngle == 0.0 && optimalLoc == (0, 0) && optimalFlip == 0 && largeLabels == null
    {
      large, small, smallLabels := Zeros(0, 0), Zeros(0, 0), Zeros(0, 0);
      mounted, oriented := false, false;
      optimalAngle, optimalLoc, optimalFlip := 0.0, (0, 0), 0;
      largeLabels := null;
    }

    /** `mount_images`: keep the three images and mark them mounted. */
    method MountImages(large: Raster, small: Raster, smallLabels: Raster)
      modifies this
      ensures this.large == large && this.small == small && this.smallLabels == smallLabels && mounted
      ensures oriented == old(oriented) && optimalAngle == old(optimalAngle) && optimalLoc == old(optimalLoc)
      ensures optimalFlip == old(optimalFlip) && largeLabels == old(largeLabels)
    {
      this.large, this.small, this.smallLabels := large, small, smallLabels;
      mounted := true;
    }

    /**
     * `orient_images`, given what the angle search found: with nothing
     * mounted it changes nothing; otherwise it records the angle, flip and
     * location and marks the images oriented.
     */
    method OrientImages(angle: real, flip: int, loc: Location)
      modifies this
      ensures !old(mounted) ==> unchanged(this)
      ensures old(mounted) ==> oriented && optimalAngle == angle && optimalFlip == flip && optimalLoc == loc
      ensures old(mounted) ==> (mounted && large == old(large) && small == old(small) &&
                                smallLabels == old(smallLabels) && largeLabels == old(largeLabels))
    {
      if !mounted {
        return;
      }
      optimalAngle, optimalFlip, optimalLoc := angle, flip, loc;
      oriented := true;
    }

    /**
     * `map_labels(label_map)`, given the labels rotated by the optimal angle
     * and the template size: before orientation nothing changes. Otherwise
     * the label map becomes `largeLabels`, and exactly the cells under the
     * placed block take the block's labels; every other cell keeps its value.
     */
    method MapLabels(labelMap: array2<int>, rotated: Raster, templateSize: int) returns (block: Raster, at: Loc)
      requires rotated.Valid()
      modifies this, labelMap
      ensures !old(oriented) ==> unchanged(this) && unchanged(labelMap)
      ensures old(oriented) ==> (largeLabels == labelMap && oriented && mounted == old(mounted) &&
                                 optimalAngle == old(optimalAngle) && optimalLoc == old(optimalLoc) &&
                                 optimalFlip == old(optimalFlip) && large == old(large) && small == old(small) &&
                                 smallLabels == old(smallLabels))
      ensures (block, at) == Placement(rotated, old(optimalFlip), old(optimalLoc), rotated.Dims(), templateSize,
                                       (labelMap.Length0, labelMap.Length1))
      ensures block.Valid()
      ensures old(oriented) ==>
                forall i, j :: 0 <= i < labelMap.Length0 && 0 <= j < labelMap.Length1 ==>
                  labelMap[i, j] == if InRect(i, j, at.0, at.1, block.height, block.width)
                                    then block.px[i - at.0][j - at.1] else old(labelMap[i, j])
    {
      var p := Placement(rotated, optimalFlip, optimalLoc, rotated.Dims(), templateSize, (labelMap.Length0, labelMap.Length1));
      block, at := p.0, p.1;
      if oriented {
        largeLabels := labelMap;
        Paste(labelMap, block, at.0, at.1);
      }
    }
  }

  /** `Match_Handler` (the older driver). */
  class MatchHandler {
    var templateSize: int
    var large: Raster
    var small: Raster
    var smallLabels: Raster
    var mounted: bool
    var oriented: bool
    var optimalAngle: real
    var optimalLoc: Location
    var optimalFlip: int
    /** The label map built by the last `map_labels`; none before it. */
    var largeLabels: array2?<int>

    constructor (templateSize: int)
      ensures this.templateSize == templateSize && !mounted && !oriented
      ensures optimalAngle == 0.0 && optimalLoc == (0, 0) && optimalFlip == 0 && largeLabels == null
    {
      this.templateSize := templateSize;
      large, small, smallLabels := Zeros(0, 0), Zeros(0, 0), Zeros(0, 0);
      mounted, oriented := false, false;
      optimalAngle, optimalLoc, optimalFlip := 0.0, (0, 0), 0;
      largeLabels := null;
    }

    /**
     * `mount_images`: keep the large image and the small image and its
     * labels, each padded to a square first when `padding` is set.
     */
    method MountImages(large: Raster, small: Raster, smallLabels: Raster, padding: bool)
      requires small.Valid() && smallLabels.Valid()
      modifies this
      ensures this.large == large && mounted
      ensures this.small == if padding then Padded(small, Side(small.height, small.width)) else small
      ensures this.smallLabels ==
              if padding then Padded(smallLabels, Side(smallLabels.height, smallLabels.width)) else smallLabels
      ensures templateSize == old(templateSize) && oriented == old(oriented) && optimalAngle == old(optimalAngle)
      ensures optimalLoc == old(optimalLoc) && optimalFlip == old(optimalFlip) && largeLabels == old(largeLabels)
    {
      if padding {
        this.small := PadToSquare(small);
        this.smallLabels := PadToSquare(smallLabels);
      } else {
        this.small := small;
        this.smallLabels := smallLabels;
      }
      this.large := large;
      mounted := true;
    }

    /**
     * `orient_images`, given what the angle search found: with nothing
     * mounted it changes nothing; otherwise it records the angle, flip and
     * location and marks the images oriented.
     */
    method OrientImages(angle: real, flip: int, loc: Location)
      modifies this
      ensures !old(mounted) ==> unchanged(this)
      ensures old(mounted) ==> oriented && optimalAngle == angle && optimalFlip == flip && optimalLoc == loc
      ensures old(mounted) ==> (mounted && templateSize == old(templateSize) && large == old(large) &&
                                small == old(small) && smallLabels == old(smallLabels) && largeLabels == old(largeLabels))
    {
      if !mounted {
        return;
      }
      optimalAngle, optimalFlip, optimalLoc := angle, flip, loc;
      oriented := true;
    }

    /**
     * `map_labels`, given the labels rotated by the optimal angle: before
     * orientation nothing changes. Otherwise `largeLabels` becomes a fresh
     * map of the large image's shape holding the placed block's labels under
     * the block and 0 everywhere else. The template offset is taken from the
     * unrotated labels' shape, as the source does.
     */
    method MapLabels(rotated: Raster) returns (block: Raster, at: Loc)
      requires rotated.Valid() && large.Valid()
      modifies this
      ensures (block, at) == Placement(rotated, old(optimalFlip), old(optimalLoc), old(smallLabels).Dims(),
                                       old(templateSize), (old(large).height, old(large).width))
      ensures block.Valid()
      ensures !old(oriented) ==> unchanged(this)
      ensures old(oriented) ==> (fresh(largeLabels) && oriented && mounted == old(mounted) &&
                                 templateSize == old(templateSize) && optimalAngle == old(optimalAngle) &&
                                 optimalLoc == old(optimalLoc) && optimalFlip == old(optimalFlip) &&
                                 large == old(large) && small == old(small) && smallLabels == old(smallLabels))
      ensures old(oriented) ==>
                largeLabels != null && largeLabels.Length0 == large.height && largeLabels.Length1 == large.width
      ensures old(oriented) ==>
                largeLabels != null &&
                forall i, j :: 0 <= i < large.height && 0 <= j < large.width ==>
                  largeLabels[i, j] == if InRect(i, j, at.0, at.1, block.height, block.width)
                                       then block.px[i - at.0][j - at.1] else 0
    {
      var p := Placement(rotated, optimalFlip, optimalLoc, smallLabels.Dims(), templateSize, (large.height, large.width));
      block, at := p.0, p.1;
      if oriented {
        var zeros := new int[large.height, large.width]((i, j) => 0);
        largeLabels := zeros;
        Paste(zeros, block, at.0, at.1);
      }
    }
  }
}
