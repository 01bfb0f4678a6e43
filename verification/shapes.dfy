/**
 * Validation of the input images' shapes before mapping: 2 when the label
 * image has the small image's shape, 1 when it differs but both of its
 * sides are multiples of 256, 0 (an error) otherwise.
 */
module Shapes {
  import opened Rasters

  /** `check_image_shapes(small, small_labels, large)` without the area test. */
  function CheckImageShapes(small: Shape, smallLabels: Shape): (r: int)
    ensures r == 2 <==> smallLabels == small
    ensures r == 1 <==> smallLabels != small && smallLabels.0 % 256 == 0 && smallLabels.1 % 256 == 0
    ensures r == 0 <==> smallLabels != small && (smallLabels.0 % 256 != 0 || smallLabels.1 % 256 != 0)
  {
    if smallLabels.0 != small.0 || smallLabels.1 != small.1 then
      if smallLabels.0 % 256 == 0 && smallLabels.1 % 256 == 0 then 1 else 0
    else 2
  }

  /**
   * The variant that first rejects a small image of larger area than the
   * large one: 0 in that case whatever the labels, otherwise the same
   * answer as the check without the area test.
   */
  function CheckImageShapesWithArea(small: Shape, smallLabels: Shape, large: Shape): (r: int)
    ensures 0 <= r <= 2
    ensures small.0 * small.1 > large.0 * large.1 ==> r == 0
    ensures small.0 * small.1 <= large.0 * large.1 ==> r == CheckImageShapes(small, smallLabels)
  {
    if small.0 * small.1 > large.0 * large.1 then 0
    else if smallLabels.0 != small.0 || smallLabels.1 != small.1 then
      if smallLabels.0 % 256 == 0 && smallLabels.1 % 256 == 0 then 1 else 0
    else 2
  }
}
