# S2SLabMap core in Dafny

S2SLabMap (Segment-to-Segment Label Mapping) carries the labels drawn on a
small image over to a large image that shows the same scene at another
rotation, possibly mirrored. The steps are:

1. Find the rotation, mirroring and location at which a template cut from
   the centre of the small image best matches the large image.
2. Rotate the small label image the same way and paste it at that place
   into a label map of the large image.
3. Separately, segment a label image into letter boxes: run a 4-connected
   flood fill over its nonzero cells, drop noise, and cut over-wide boxes
   into strips.

This project models the integer and grid logic around the OpenCV calls and
proves what it promises:

- `rasters.dfy` (module `Rasters`): rank-2 numpy arrays as `Raster` values.
  It covers numpy's basic slicing, including negative and over-long
  bounds, column mirroring (`cv2.flip(x, 1)`), and the in-place write of a
  block into a slice of an `array2`.
- `boxes.dfy` (module `Boxes`): the `Bounding_Box` class and the value a
  box hands on (bounds and mask). It also holds the rule that drops small
  boxes and cuts wide ones into 500-column strips.
- `segmenter.dfy` (module `Segmenter`): `fetch_neighbours`, `bfs` and
  `get_letter_boundries`, imperative over an `array2<bool>` grid that is
  cleared in place. It proves:
  - the flood fill clears exactly the start's 4-connected component;
  - the rounds find the components in row-major order of their first cell;
  - the components are disjoint and together cover the nonzero cells;
  - the boxes returned are exactly those the filter and the split emit.
- `geometry.dfy` (module `Geometry`): `get_offset`, `crop_image`,
  `create_template`, `offsets` and `pad_to_square`.
- `voting.dfy` (module `Voting`): `find_most_common`. It is proved to
  return the value with the highest count and, among ties, the one seen
  first.
- `matching.dfy` (module `Matching`): the `Matcher` bookkeeping, which
  records a new hypothesis only on a strictly higher score.
- `shapes.dfy` (module `Shapes`): both variants of `check_image_shapes`.
- `mapping.dfy` (module `Mapping`): the `Mapper` and `Match_Handler`
  drivers. It covers their mount and orient guards and the
  crop-and-paste at the end of `map_labels`.

Some things become parameters:

- The results of the angle search, which is driven by OpenCV's
  correlation scores.
- The rotated label image.
- The template size.

`MapLabels` returns the cropped block it pasted and the block's
location. The Python method returns nothing; the extra result only names
what the contract describes.

`get_offset`, `crop_image` and `find_most_common` appear in both
support_functions.py and support_file.py with the same code, and so do
`create_template` and `Matcher.check_match_and_update`. Each is modelled
once. The table cites one copy, and the row names the other.

## Model

| member | source | states |
|---|---|---|
| `Rasters.Zeros` | support_file.py:126 | `np.zeros((h, w))`: an h-by-w raster whose every sample is 0 |
| `Rasters.Clamp` | support_functions.py:92 | where a Python slice bound lands: negative bounds count from the end, out-of-range bounds are clipped to [0, n] |
| `Rasters.Block` | support_functions.py:105 | `img[r0:r1, c0:c1]` is a valid raster whose extents are the slice lengths under Python's rules |
| `Rasters.BlockAt` | support_functions.py:105 | sample (i, j) of a slice is the source sample at the clamped start plus (i, j) |
| `Rasters.FlipColumns` | support_functions.py:107 | `cv2.flip(x, 1)` keeps the shape and takes sample (i, j) from column width - 1 - j |
| `Rasters.FlipInvolution` | support_functions.py:107 | mirroring twice gives back the original raster |
| `Rasters.HCatOfSplit` | support_functions.py:68-70 | the first k columns and the rest, set side by side, rebuild the raster |
| `Rasters.Paste` | support_classes.py:132 | slice assignment writes exactly the block's rectangle of the target with the block's samples and leaves every other cell as it was |
| `Boxes.Grow` | support_classes.py:34-42 | `update_boundaries` as a value: lower bounds never rise and upper bounds never fall; a point already inside changes nothing; for ordered bounds the result is ordered, contains the point and is the min/max hull |
| `Boxes.TightGrow` | support_classes.py:34-42 | growing bounds that are tight around a point set gives bounds tight around the set plus the new point |
| `Boxes.HullTight` | support_functions.py:26-34 | a box created at the start and grown by every listed position contains all of them, and each of its four bounds is the coordinate of one of them |
| `Boxes.BoundingBox.constructor` | support_classes.py:28-32 | a box at (x, y) has x_min = x_max = x and y_min = y_max = y |
| `Boxes.BoundingBox.UpdateBoundaries` | support_classes.py:34-42 | the new bounds are `Grow` of the old; ordered bounds stay ordered and contain the position; a position inside leaves all four fields unchanged |
| `Boxes.BoundingBox.CreateContents` | support_classes.py:44-45 | contents is the image block of rows y_min..y_max and columns x_min..x_max; for an ordered box inside the image it has the box's extent (y_max - y_min + 1, x_max - x_min + 1), which is the mask's shape for a box straight from bfs but not for a strip, and holds the image's samples |
| `Boxes.BoundingBox.CreateMask` | support_classes.py:47-50 | given positions inside the box, the mask has shape (y_max - y_min + 1, x_max - x_min + 1) with 255 exactly at the given positions, relative to the corner, and 0 elsewhere |
| `Boxes.StripsCut` | support_functions.py:62-72 | piece k of the emitted boxes is a strip of what was left after k cuts; the last piece is what is left after all of them |
| `Boxes.StripsCutAll` | support_functions.py:62-72 | the same for every piece at once |
| `Boxes.StripsAt` | support_functions.py:62-71 | piece k starts 500k columns further right with the same y bounds; a strip has exactly 500 mask columns and x_max = x_min + 500; the remainder keeps x_max; each piece holds mask columns 500k onward |
| `Boxes.SplitShape` | support_functions.py:61-72 | a box of W mask columns splits into W // 500 strips of exactly 500 columns, then a remainder of W % 500 columns, all at the original y bounds |
| `Boxes.SplitBoundsAsWritten` | support_functions.py:64-65 | as written, each strip's inclusive x range spans 501 columns for a 500-column mask, and a zero-width remainder has x_min = x_max + 1 |
| `Boxes.StripsConcat` | support_functions.py:62-72 | the masks of n strips and the remainder, set side by side, rebuild the original mask |
| `Boxes.SplitConcat` | support_functions.py:61-72 | the masks of the split boxes, concatenated column-wise in emission order, equal the original mask |
| `Segmenter.AppendedSpec` | support_functions.py:38-46 | after the first d tests, the appended cells are True, in-grid, unqueued neighbours in strictly increasing direction, and every True neighbour of those directions is queued |
| `Segmenter.AppendedStep` | support_functions.py:39-46 | one neighbour test extends the appended cells by exactly that test's outcome |
| `Segmenter.Fetched` | support_functions.py:38-47 | after the four tests the old queue is a prefix; the new cells are True, in-grid, adjacent and not queued before, in the order up, down, left, right; every True neighbour is queued; no duplicates appear |
| `Segmenter.FetchNeighbours` | support_functions.py:38-47 | the queue keeps its old cells as a prefix and gains only in-bounds True 4-neighbours not already queued, in direction order; every True neighbour ends up queued; a queue without repeats stays without repeats |
| `Segmenter.AppendedDistinct` | support_functions.py:38-47 | cells appended in strictly increasing direction, none already queued, keep a repeat-free queue repeat-free |
| `Segmenter.FrontierStep` | support_functions.py:29-32 | one pass of the bfs loop keeps the flood-fill invariant: the queue is repeat-free and unvisited, everything is reachable from the start, and every neighbour in the set of a visited cell is visited or queued |
| `Segmenter.FrontierDone` | support_functions.py:29 | when the queue is empty the visited cells are exactly the start's 4-connected component |
| `Segmenter.FillStep` | support_functions.py:30-32 | the same step read off the grid after the head cell is cleared and its neighbours fetched |
| `Segmenter.ListStep` | support_functions.py:33-34 | listing the current cell as (col, row) keeps the list repeat-free and in step with the visited cells, and the box's bounds grow by that point |
| `Segmenter.ListedPoints` | support_functions.py:26-34 | the listed positions plus the start are exactly the visited cells as (x, y) points |
| `Segmenter.FillResult` | support_functions.py:33-35 | the bounds grown from the start by every listed position, together with the mask of the listed positions, describe the visited cells: tight bounds, and a mask shaped by the extent that is 255 exactly on them |
| `Segmenter.Flood` | support_functions.py:28-34 | the queue loop clears exactly the start's component from the grid, lists each of its cells once as (col, row), and leaves the box with the start grown by every listed point |
| `Segmenter.Bfs` | support_functions.py:25-36 | the grid loses exactly the start's 4-connected True component, and the new box has the tight bounds and the 0/255 mask of that component; positions list each component cell once, as (col, row) |
| `Segmenter.FirstTrue` | support_functions.py:55-56 | `grid.any()` holds iff some cell is True, and then the cell is the first True cell in row-major order (`argmax`) |
| `Segmenter.SegmentStep` | support_functions.py:55-57 | flood-filling from the first uncleared cell finds that cell's component of the whole nonzero set, and the components found stay disjoint, seeded in row-major order and closed |
| `Segmenter.EmitAllSnoc` | support_functions.py:58-72 | the boxes emitted for one more flood-filled box are appended after those emitted before |
| `Segmenter.CutStrip` | support_functions.py:63-70 | a fresh box takes the leftmost 500 mask columns with x_max = x_min + 500; the box keeps the rest with x_min moved right by 500 |
| `Segmenter.CutStrips` | support_functions.py:62-71 | n cuts give n fresh strips, equal to the first n pieces of `Strips`, and leave the box equal to the last piece |
| `Segmenter.AppendBox` | support_functions.py:58-72 | the list gains exactly the boxes `Emit` gives: none unless both extents exceed 20; W // 500 strips and then the rest when splitting is on and W > 500; otherwise the box unchanged |
| `Segmenter.KeepBox` | support_functions.py:58-72 | appending one flood-filled box keeps the boxes equal, in order, to those emitted for all flood-filled boxes so far |
| `Segmenter.FoundDone` | support_functions.py:55 | once no nonzero cell is left outside the components found, the components cover every nonzero cell |
| `Segmenter.FoundStep` | support_functions.py:55-57 | one round extends the segmentation by the seed's component and strictly shrinks the set of cells left |
| `Segmenter.FloodComponent` | support_functions.py:56-57 | flood-filling from the first True cell clears that cell's component and yields a box describing it |
| `Segmenter.Binarize` | support_functions.py:50-52 | the grid has the label image's shape and is True exactly at its nonzero samples |
| `Segmenter.Round` | support_functions.py:55-72 | one pass of the loop body keeps the segmentation and the emitted boxes in step and strictly shrinks what is left, so the loop terminates |
| `Segmenter.GetLetterBoundries` | support_functions.py:49-73 | the flood-filled components are the 4-connected components of the nonzero cells, seeded in row-major order, pairwise disjoint and covering every nonzero cell; each box describes its component; the boxes returned are exactly those the noise filter and the strip split emit, in order |
| `Geometry.GetOffset` | support_functions.py:85-88 | the margins before and after the centred square differ by at most one on each axis, and the square lies inside the image when it is no larger (also support_file.py:137-140) |
| `Geometry.KeptLen` | support_functions.py:91-100 | the rows kept by clipping, when any, end inside the block |
| `Geometry.TrimRows` | support_functions.py:91-95 | row clipping keeps the width, moves a negative row to 0, and keeps KeptLen rows |
| `Geometry.TrimRowsAt` | support_functions.py:91-95 | the kept rows are the block's rows from max(0, -r) on |
| `Geometry.TrimCols` | support_functions.py:96-100 | column clipping keeps the height, moves a negative column to 0, and keeps KeptLen columns |
| `Geometry.TrimColsAt` | support_functions.py:96-100 | the kept columns are the block's columns from max(0, -c) on |
| `Geometry.CropImage` | support_functions.py:90-101 | the location becomes (max(r, 0), max(c, 0)); the block keeps rows max(0, -r)..min(h, H - r) and likewise for columns, empty when the range is; a non-empty block fits the target at the new location (also support_file.py:142-153) |
| `Geometry.CropImageCells` | support_functions.py:90-101 | the cropped block is, cell for cell, the input from (max(0, -r), max(0, -c)) on |
| `Geometry.CropAt` | support_functions.py:90-101 | one cell of the same |
| `Geometry.CropInside` | support_functions.py:90-101 | a block already inside the target comes back unchanged at the same place |
| `Geometry.CreateTemplate` | support_functions.py:103-109 | the template is valid and size-by-size whenever the square fits the image (also support_file.py:114-120) |
| `Geometry.TemplateAt` | support_functions.py:103-109 | template sample (i, j) is the image sample at the centred offset plus (i, j), taken from column size - 1 - j when flipped |
| `Geometry.TemplateFlip` | support_functions.py:104-109 | the flipped template mirrored again equals the plain template |
| `Geometry.Offsets` | support_functions.py:111-122 | the window is max(0, loc - 200) to min(extent, loc + size + 400) on each axis, never leaves the large image, and contains the small image's extent whenever that lies in the large image |
| `Geometry.ISqrt` | support_file.py:125 | the integer square root r satisfies r * r <= n < (r + 1) * (r + 1) |
| `Geometry.Side` | support_file.py:125 | the padded square's side is at least the image's height and width |
| `Geometry.SideIsDiagonal` | support_file.py:125 | the side is the floor of the diagonal |
| `Geometry.Byte` | support_file.py:129 | `astype('uint8')` yields a value in 0..255, and a sample already in 0..255 is kept |
| `Geometry.Bytes` | support_file.py:129 | converting to bytes keeps the shape and maps every sample through `Byte` |
| `Geometry.PadAt` | support_file.py:127 | the image placed at ((side - h) // 2, (side - w) // 2) fits the square, with margins that differ by at most one |
| `Geometry.Embed` | support_file.py:126-128 | a zero square with a block written in is side-by-side and valid |
| `Geometry.UnEmbed` | support_file.py:126-128 | cutting the block's place out of the embedding gives the block back |
| `Geometry.UnEmbedRow` | support_file.py:128 | one row of the same |
| `Geometry.Padded` | support_file.py:124-129 | the padded image is a valid side-by-side raster |
| `Geometry.UnpadPadded` | support_file.py:124-129 | cutting the image's place out of the padded square gives the image's bytes |
| `Geometry.BytesOf8Bit` | support_file.py:129 | converting an image whose samples all lie in 0..255 to bytes leaves it unchanged |
| `Geometry.UnpadRestores` | support_file.py:124-129 | an 8-bit image, as `pad_to_square` receives, comes back unchanged from its place ((side - h) // 2, (side - w) // 2) in the padded square |
| `Geometry.PaddedMargin` | support_file.py:126-128 | every cell of the padded square outside the image's place is 0 |
| `Geometry.PadToSquare` | support_file.py:124-129 | the result is the image's bytes centred in a zero square whose side is the floor of the diagonal |
| `Geometry.PadInto` | support_file.py:126-129 | filling a zero square, pasting the image in place and converting to bytes gives `Padded` |
| `Geometry.PastedIsPadded` | support_file.py:128-129 | a zero square with the image pasted at PadAt, converted to bytes, equals `Padded` |
| `Voting.Count` | support_file.py:158 | a count is at most the length, and positive exactly for members |
| `Voting.FirstIndex` | support_file.py:158 | the first occurrence holds the value and nothing before it does |
| `Voting.KeysSpec` | support_file.py:158 | `Counter`'s keys are exactly the list's values, ordered by first occurrence |
| `Voting.MostCommonSpec` | support_file.py:159 | `most_common(1)` picks a key of maximal count, and every key before it has a strictly lower count |
| `Voting.FirstOfMaximal` | support_file.py:157-159 | that key is the value of maximal count that occurs first |
| `Voting.FindMostCommon` | support_functions.py:126-128 | for a non-empty list, the result is an element of maximal count, and among the elements of that count the one whose first occurrence is earliest (also support_file.py:157-159) |
| `Matching.Update` | support_classes.py:74-80 | a candidate replaces the hypothesis if and only if its score is strictly higher, so the score never decreases and ties keep the earlier hypothesis |
| `Matching.ScanSpec` | support_classes.py:74-80 | after a run of candidates the matcher holds its starting state, if none beat it, or the earliest candidate of the highest score; the score never decreases |
| `Matching.ScanFromInitial` | support_classes.py:60-64 | starting from score 0, only a candidate with a positive score is ever recorded |
| `Matching.Matcher.constructor` | support_classes.py:59-64 | a new matcher has score 0, angle 0, location (0, 0) and flipped 0 |
| `Matching.Matcher.CheckMatchAndUpdate` | support_classes.py:74-80 | the fields become `Update` of the old state: value, angle and location are taken and flipped is set to 1 or 0 only on a strictly higher score, else nothing changes (also support_file.py:39-45) |
| `Shapes.CheckImageShapes` | support_functions.py:139-149 | 2 iff the label shape equals the small shape; 1 iff it differs and both label sides are multiples of 256; 0 otherwise |
| `Shapes.CheckImageShapesWithArea` | support_file.py:170-180 | 0 whenever the small area exceeds the large area, whatever the labels; otherwise the answer of the check without the area test |
| `Mapping.LabelLoc` | support_classes.py:128 | the labels' corner plus the template offset is the matched point, with (x, y) swapped to (row, col) |
| `Mapping.Placement` | support_classes.py:125-131 | the block written is valid, at a non-negative location, and fits the label map unless empty |
| `Mapping.PlacementWhole` | support_classes.py:125-131 | when the oriented labels lie inside the map at the computed location, all of them are written there |
| `Mapping.Mapper.constructor` | support_classes.py:91-98 | a new mapper is neither mounted nor oriented, with angle 0, location (0, 0) and flip 0 |
| `Mapping.Mapper.MountImages` | support_classes.py:100-104 | the three images are kept and the mapper is mounted; nothing else changes |
| `Mapping.Mapper.OrientImages` | support_classes.py:106-117 | with nothing mounted nothing changes; otherwise the angle, flip and location are recorded and the images are oriented |
| `Mapping.Mapper.MapLabels` | support_classes.py:119-132 | before orientation nothing changes; otherwise the label map becomes large_labels, the cells under the placed block take the block's labels with no merge, and every other cell keeps its value |
| `Mapping.MatchHandler.constructor` | support_file.py:49-56 | a new handler keeps the template size and is neither mounted nor oriented, with angle 0, location (0, 0) and flip 0 |
| `Mapping.MatchHandler.MountImages` | support_file.py:58-66 | with padding, the small image and its labels are `Padded` to their diagonal's side; otherwise they are kept as given; the large image is kept and the handler is mounted |
| `Mapping.MatchHandler.OrientImages` | support_file.py:68-73 | with nothing mounted nothing changes; otherwise the angle, flip and location are recorded and the images are oriented |
| `Mapping.MatchHandler.MapLabels` | support_file.py:75-88 | before orientation nothing changes; otherwise large_labels is a fresh array of the large image's shape holding the placed block's labels under the block and 0 everywhere else |

## Left out

- `rotate_image` (both copies): an affine warp with float matrices and interpolation. The rotated label image is a parameter of `MapLabels`.
- `Matcher.match`: OpenCV's template matching and `minMaxLoc`, including `1 - min_val` in one copy and `1 / min_val` in the other. Only the update rule it feeds is modelled. A score is a `real`, and only `>` on it matters.
- `find_angle_and_flip` (both copies): a float step search driven by the correlation scores. Its results are the parameters of `OrientImages`, and its voting step is `FindMostCommon`.
- `get_min_side_ratio`: a float product. The template size is a parameter of `Mapper.MapLabels`.
- The `match_makers` list and `template_ratio` are not fields of the model. They only feed the angle search.
- `load_image`, `save_image`, `check_image_paths` and main.py: file I/O and a console driver.
- The `print` calls of the error paths: an error path is modelled as the state change it makes, which is none.
- `Geometry.Side`: the floor integer square root stands in for `int((h**2 + w**2)**0.5)`. The two agree as long as the float square root is correctly rounded, which is assumed.
- `Geometry.Byte`: `astype('uint8')` on the padded float array is taken as wrap-around modulo 256. Samples are integers here, so fractional samples are not modelled.
- Label maps and images hold integer samples. `np.zeros` in `Match_Handler.map_labels` makes a float array, and that element type is not modelled.
- `Mapping.Mapper.MapLabels`: `label_map=None`, the default, is not modelled. In Python the paste then fails on `None`; the model requires an array.
- Attributes that Python only creates in `mount_images` or `map_labels` start here as empty rasters and `null`.
- `offsets` has no caller in the repository. It is modelled on its own.
- `Boxes.SplitBoundsAsWritten`: the strip bounds are modelled as written, and x_max = x_min + 500 claims one column more than the strip's mask holds. No corrected variant is given.
