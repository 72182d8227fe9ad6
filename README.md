# scantailor-advanced: image combination, polygon utilities, proximity and status grouping

This project is a Dafny model of four pieces of scantailor-advanced. It proves
what each piece computes.

- **Image combination** (`src/imageproc/ImageCombination.cpp`). A foreground is
  drawn in place onto a destination image. The destination is 8-bit indexed or
  32-bit (A)RGB. The foreground is either a binary image or a colour image, and
  an optional binary mask can restrict it. `applyMask` paints every pixel
  outside a mask white or black. Indexed destinations merge the foreground's
  colour table into their own. The table is capped at 256 entries, and drawn
  pixels are remapped to indices of the merged table. Unsupported formats and
  size mismatches fail before any pixel changes.
  - `image_combination.dfy` holds the routines, the dispatch and the entry points.
  - `palette.dfy` holds the colour-table merge and the colour-to-index map.
  - `binary_image.dfy` holds the bit layout of a binary image.
- **Polygon utilities** (`src/imageproc/PolygonUtils.cpp`), in
  `polygon_utils.dfy` and `convex_hull.dfy`:
  - rounding to a 1/4096 grid;
  - the dominant-axis point order `Before`, which amounts to ordering by x + y
    and then by y;
  - extracting normalised edges;
  - the fuzzy comparison of two polygons;
  - the monotone-chain convex hull.
- **Proximity** (`src/foundation/Proximity.cpp`, in `proximity.dfy`): the
  squared distance between two points, and the point of a line segment nearest
  to a given point.
- **Status grouping** (`src/app/RelinkingListView.cpp`, `GroupAggregator`, in
  `relinking.dfy`): consecutive list items with the same status collapse into
  one group. The group's rectangle is the union of its items' rectangles.

Two supporting modules are shared:

- `geometry.dfy`: points, lines and the absolute value.
- `sorting.dfy`: an insertion sort that stands in for `std::sort`, with its
  ordering lemmas.

Coordinates are exact reals. Pixels are `bv8`/`bv32`. Pixel buffers are
`array2` fields changed in place. The group list is a `seq` field of a class.

## Model

| member | source | states |
|---|---|---|
| BinaryImages.MonoColor | src/imageproc/ImageCombination.cpp:24-31 | The shift-mask-decrement-or sequence on a foreground word gives opaque black (0xff000000) when the pixel's bit is set and opaque white (0xffffffff) when it is clear. |
| ImageCombination.BytesAreOpaque | src/imageproc/ImageCombination.cpp:70-88 | An 8-bit pixel widened to 32 bits always passes the opacity test (it is never judged transparent), so the grayscale same-depth route copies every pixel. |
| ImageCombination.Image.constructor | src/imageproc/ImageCombination.cpp:14-19 | A destination has `height` rows of a stride of at least `width` pixels, seen as bytes for Indexed8 and as words otherwise. |
| ImageCombination.CombineImagesMono | src/imageproc/ImageCombination.cpp:12-37 | Inside the first `width` columns, every pixel whose foreground bit is set becomes opaque black. Every other pixel, padding included, keeps its value. |
| ImageCombination.CombineImagesMonoMasked | src/imageproc/ImageCombination.cpp:39-67 | Where the mask bit is set, the pixel becomes black if the foreground bit is set and white if it is clear. Outside the mask nothing changes. |
| ImageCombination.CombineImagesColor | src/imageproc/ImageCombination.cpp:69-88 | For same-depth images, each foreground pixel whose low 24 bits are not all set is copied. All other pixels keep their value. |
| ImageCombination.CombineRgbWithIndexed | src/imageproc/ImageCombination.cpp:93-115 | On a 32-bit destination, each foreground index is resolved through the foreground's colour table. The colour is stored only if it passes the transparency test. |
| ImageCombination.CombineIndexedWithIndexed | src/imageproc/ImageCombination.cpp:127-162 | The destination's colour table becomes the merged table capped at 256 entries. Each opaque foreground pixel receives the index of its colour in that table, or 0 when the colour was cut off. All other pixels keep their value. |
| ImageCombination.CombineImagesColorMasked | src/imageproc/ImageCombination.cpp:164-186 | Wherever the mask bit is set, the foreground pixel is copied, with no transparency test. Outside the mask nothing changes. |
| ImageCombination.CombineRgbWithIndexedMasked | src/imageproc/ImageCombination.cpp:191-216 | Wherever the mask bit is set, the palette colour of the foreground index is stored. Outside the mask nothing changes. Indices are required to be in range only under the mask, the only place they are looked up. |
| ImageCombination.CombineIndexedWithIndexedMasked | src/imageproc/ImageCombination.cpp:218-256 | The colour table is handled as in the unmasked routine. Wherever the mask bit is set, the pixel receives the index of its foreground colour in the new table (0 if cut off), with no transparency test. Indices are required to be in range only under the mask. |
| ImageCombination.ApplyMaskLines | src/imageproc/ImageCombination.cpp:258-278 | Every pixel of the first `width` columns whose mask bit is clear takes the fill value: 0xffffffff for white, 0 for black. All other pixels are unchanged. |
| ImageCombination.ExtendedColorTable | src/imageproc/ImageCombination.cpp:137-145 | The table step: the result is CombinedPalette of the current and incoming tables, whose properties are proved in Palettes. |
| ImageCombination.LookupOrInsert | src/imageproc/ImageCombination.cpp:156 | `colorToIndex[color]` yields the colour's index in the table, or 0 for a colour not in it. The inserted default keeps the map consistent with ColorIndex for every key. |
| ImageCombination.DispatchMono | src/imageproc/ImageCombination.cpp:305-311 | The routine chosen by pixel depth draws the binary foreground as MonoDrawn describes: black where the bit is set, elsewhere unchanged. The other pixel view stays untouched. |
| ImageCombination.DispatchMonoMasked | src/imageproc/ImageCombination.cpp:313-319 | As DispatchMono, for the masked mono routine. |
| ImageCombination.DispatchColor | src/imageproc/ImageCombination.cpp:321-335 | Routine choice: an indexed destination uses the same-depth copy only when both images are grayscale, and otherwise merges colour tables. A 32-bit destination copies words under an RGB32/ARGB32 foreground, and otherwise reads the foreground as indices. Only the merging route changes the colour table. |
| ImageCombination.DispatchColorMasked | src/imageproc/ImageCombination.cpp:337-351 | The same choice of route, for the masked routines, as ColorDrawnMasked describes. The indexed routes need valid palette indices only under the mask. |
| ImageCombination.DispatchApplyMask | src/imageproc/ImageCombination.cpp:353-359 | The image is filled outside the mask by the routine for its depth, as MaskApplied describes. |
| ImageCombination.CheckFormat | src/imageproc/ImageCombination.cpp:282-287 | The check succeeds exactly for Indexed8, RGB32 and ARGB32. Otherwise it fails with the wrong-format error. |
| ImageCombination.CheckSizes | src/imageproc/ImageCombination.cpp:289-294 | The check succeeds exactly when both sizes are equal. Otherwise it fails with the size-mismatch error. |
| ImageCombination.CheckSizes3 | src/imageproc/ImageCombination.cpp:296-301 | The check succeeds exactly when all three sizes are equal. Otherwise it fails with the size-mismatch error. |
| ImageCombination.CombineImages | src/imageproc/ImageCombination.cpp:362-367 | An unsupported format fails first, then a size mismatch fails, and neither changes a pixel. Success holds exactly when both checks pass, and then the foreground is drawn. |
| ImageCombination.CombineImagesMasked | src/imageproc/ImageCombination.cpp:369-374 | The same error order and no-change-on-failure. On success the masked mono drawing is applied. |
| ImageCombination.CombineImagesWithPicture | src/imageproc/ImageCombination.cpp:376-385 | The same checks. A Mono/MonoLSB foreground is drawn as a binary image and leaves the colour table alone. Any other foreground goes through the colour routines. |
| ImageCombination.CombineImagesWithPictureMasked | src/imageproc/ImageCombination.cpp:387-396 | The format check comes first, then a three-way size check against the foreground and the mask. After that comes the mono or colour masked drawing, as in the unmasked entry point. Foreground palette indices need to be valid only under the mask. |
| ImageCombination.ApplyMask | src/imageproc/ImageCombination.cpp:398-403 | The same error order and no-change-on-failure. On success every pixel outside the mask is filled. |
| ImageCombination.CombineImagesTwice | src/imageproc/ImageCombination.cpp:362-367 | Drawing the same binary foreground twice gives the same outcome both times and the same image as drawing it once. |
| ImageCombination.ApplyMaskTwice | src/imageproc/ImageCombination.cpp:398-403 | Applying the same mask twice gives the same outcome both times and the same image as applying it once. |
| Palettes.FirstIndexOf | src/imageproc/ImageCombination.cpp:117-125 | Gives the position of a colour's first occurrence in a table, and no earlier position holds that colour. |
| Palettes.LastIndexOf | src/imageproc/ImageCombination.cpp:147-150 | Gives the position the index map keeps for a colour: the map is filled front to back, so the last occurrence overwrites earlier ones. |
| Palettes.MergedPrefix | src/imageproc/ImageCombination.cpp:117-125 | Merging only appends: the original table is a prefix of the result. At most as many entries are added as the incoming table has. |
| Palettes.MergedContains | src/imageproc/ImageCombination.cpp:117-125 | Every colour of either table is in the merged table. |
| Palettes.MergedFrom | src/imageproc/ImageCombination.cpp:117-125 | Every colour of the merged table comes from one of the two tables. |
| Palettes.MergedFresh | src/imageproc/ImageCombination.cpp:117-125 | Each appended entry is an incoming colour that does not occur earlier in the result, so no colour is added twice. |
| Palettes.MergedOrder | src/imageproc/ImageCombination.cpp:117-125 | Appended colours keep the order of their first occurrence in the incoming table. |
| Palettes.MergedSpec | src/imageproc/ImageCombination.cpp:117-125 | All of the above in one statement: the complete specification of mergePalettes. |
| Palettes.MergePalettes | src/imageproc/ImageCombination.cpp:117-125 | The loop with its seen-set computes Merged. Its result keeps the old table as a prefix, contains every incoming colour, and appends only new incoming colours. |
| Palettes.Truncated | src/imageproc/ImageCombination.cpp:140-142 | A table longer than 256 entries becomes its first 256 entries. A table of at most 256 entries is kept as it is. |
| Palettes.CombinedPalette | src/imageproc/ImageCombination.cpp:137-145 | A full table (at least 256 entries) is kept. Otherwise the result keeps the old table as a prefix and has at most 256 entries. It holds every incoming colour unless it is full, and holds nothing but old and incoming colours. |
| Palettes.IndexByte | src/imageproc/ImageCombination.cpp:149 | `static_cast<uint8_t>(i)` is i modulo 256, and i itself below 256. |
| Palettes.ColorIndex | src/imageproc/ImageCombination.cpp:147-155 | For a table of at most 256 entries, a colour in the table maps to an index that holds that colour. A colour not in the table maps to 0. |
| Palettes.KeyInjective | src/imageproc/ImageCombination.cpp:147 | Two colours with the same numeric key are the same colour, so keying the map by value loses nothing. |
| Palettes.BuildColorToIndex | src/imageproc/ImageCombination.cpp:147-150 | The map's keys are exactly the table's colours, and each key maps to ColorIndex of its colour. |
| PolygonUtils.Compare | src/imageproc/PolygonUtils.cpp:28-45 | The result is -1, 0 or 1, and is 0 exactly for identical points. |
| PolygonUtils.CompareAntisymmetric | src/imageproc/PolygonUtils.cpp:28-45 | Swapping the operands negates the result. |
| PolygonUtils.PointBeforeBySum | src/imageproc/PolygonUtils.cpp:15-46 | Before on points is the order by x + y, with ties broken by y. |
| PolygonUtils.BeforeIsStrictWeakOrder | src/imageproc/PolygonUtils.cpp:15-46 | Before on points and on lines is asymmetric and negatively transitive, which std::sort requires of its comparator. |
| PolygonUtils.RoundValue | src/imageproc/PolygonUtils.cpp:94-96 | The result lies on the 1/4096 grid, within half a step of the input, with halves rounding up. |
| PolygonUtils.RoundValueIdempotent | src/imageproc/PolygonUtils.cpp:94-96 | Rounding a rounded value changes nothing. |
| PolygonUtils.RoundPoint | src/imageproc/PolygonUtils.cpp:90-92 | A rounded point is fuzzily equal to the original point. |
| PolygonUtils.RoundedIdempotent | src/imageproc/PolygonUtils.cpp:49-57 | Rounding a rounded polygon changes nothing. |
| PolygonUtils.Rounded | src/imageproc/PolygonUtils.cpp:49-57 | Definition of the polygon `round` returns, one rounded vertex per vertex. Round is proved equal to it; RoundedIdempotent states its meaning. |
| PolygonUtils.Round | src/imageproc/PolygonUtils.cpp:49-57 | The loop yields one rounded vertex per input vertex, in order, each fuzzily equal to its original. |
| PolygonUtils.PointsFuzzyEqualReflexiveSymmetric | src/imageproc/PolygonUtils.cpp:138-142 | Point fuzzy equality is reflexive and symmetric. |
| PolygonUtils.EdgesFuzzyEqual | src/imageproc/PolygonUtils.cpp:123-136 | Gives true exactly when the two equally long edge lists match endpoint by endpoint at every index. |
| PolygonUtils.AllLinesFuzzyEqual | src/imageproc/PolygonUtils.cpp:123-132 | Definition of the pairwise match of two equally long edge lists. EdgesFuzzyEqual is proved equal to it. |
| PolygonUtils.NormalizedEdge | src/imageproc/PolygonUtils.cpp:116-120 | The edge joins the same two points, with its second endpoint not Before its first. |
| PolygonUtils.MaybeAddNormalizedEdge | src/imageproc/PolygonUtils.cpp:111-121 | A fuzzily degenerate edge is skipped. Any other edge is appended in normalised form, and earlier edges are untouched. |
| PolygonUtils.ExtractAndNormalizeEdges | src/imageproc/PolygonUtils.cpp:98-109 | The loop returns the consecutive edges followed by the closing edge, each filtered and normalised. |
| PolygonUtils.EdgeFor | src/imageproc/PolygonUtils.cpp:111-121 | Definition of what maybeAddNormalizedEdge appends: nothing for fuzzily equal endpoints, otherwise the normalised edge. MaybeAddNormalizedEdge states its meaning. |
| PolygonUtils.ChainEdges | src/imageproc/PolygonUtils.cpp:103-105 | Definition of the edges the loop adds between consecutive vertices. ChainEdgesShape states its meaning. |
| PolygonUtils.NormalizedEdges | src/imageproc/PolygonUtils.cpp:98-121 | Definition of what extractAndNormalizeEdges returns: the filtered, normalised consecutive edges, then the closing edge. ExtractAndNormalizeEdges is proved equal to it; NormalizedEdgesShape states its meaning. |
| PolygonUtils.NormalizedEdgesShape | src/imageproc/PolygonUtils.cpp:98-121 | There are at most as many edges as vertices. Every edge is normalised, non-degenerate, and joins two vertices of the polygon. |
| PolygonUtils.ChainEdgesShape | src/imageproc/PolygonUtils.cpp:103-105 | The same shape facts for the consecutive edges alone, of which there are at most n - 1. |
| PolygonUtils.ClosingKeepsEdges | src/imageproc/PolygonUtils.cpp:68-79 | Closing a polygon before extracting edges yields the same edges as not closing it. |
| PolygonUtils.ClosedDropsWrapEdge | src/imageproc/PolygonUtils.cpp:106 | On a closed polygon the wrap-around edge is degenerate and dropped. |
| PolygonUtils.Closed | src/imageproc/PolygonUtils.cpp:68-76 | A polygon that already ends with its first vertex is returned unchanged; any other gains exactly that vertex at the end. The result ends where it starts and keeps the polygon as a prefix. |
| PolygonUtils.PolygonsFuzzyEqual | src/imageproc/PolygonUtils.cpp:59-88 | Definition of what fuzzyCompare decides. FuzzyCompare is proved equal to it; PolygonsFuzzyEqualReflexive and PolygonsFuzzyEqualSymmetric state its meaning. |
| PolygonUtils.FuzzyCompare | src/imageproc/PolygonUtils.cpp:59-88 | Two polygons of fewer than two vertices match. Exactly one such polygon matches nothing. Otherwise differing edge counts fail, and the sorted edges must match pairwise. |
| PolygonUtils.SortedEdgesOrdered | src/imageproc/PolygonUtils.cpp:85-86 | The sorted edge lists are fully ordered by Before. |
| PolygonUtils.PolygonsFuzzyEqualReflexive | src/imageproc/PolygonUtils.cpp:59-88 | Every polygon matches itself. |
| PolygonUtils.PolygonsFuzzyEqualSymmetric | src/imageproc/PolygonUtils.cpp:59-88 | The comparison does not depend on the order of its operands. |
| PolygonUtils.PointBefore | src/imageproc/PolygonUtils.cpp:17 | Definition of Before on points: compare gives -1. Its meaning is stated by PointBeforeBySum and BeforeIsStrictWeakOrder. |
| PolygonUtils.LineBefore | src/imageproc/PolygonUtils.cpp:19-25 | Definition of Before on lines: by first endpoint, then by second. Its order properties are stated by BeforeIsStrictWeakOrder. |
| PolygonUtils.PointsFuzzyEqual | src/imageproc/PolygonUtils.cpp:138-142 | Definition: both coordinate differences are at most 1/4096. Reflexivity and symmetry are stated by PointsFuzzyEqualReflexiveSymmetric. |
| PolygonUtils.LinesFuzzyEqual | src/imageproc/PolygonUtils.cpp:134-136 | Definition: first endpoints and second endpoints are fuzzily equal. EdgesFuzzyEqual states the list comparison built on it. |
| ConvexHulls.LexLess | src/imageproc/PolygonUtils.cpp:145-153 | Definition: by x, then by y. LexLessIsStrictWeakOrder states that it is a strict weak order. |
| ConvexHulls.Cross | src/imageproc/PolygonUtils.cpp:158-160 | Definition: the z-component of the cross product of OA and OB. The chain contracts use it as the left-turn test. |
| Palettes.Merged | src/imageproc/ImageCombination.cpp:117-125 | mergePalettes as a value. Its properties are stated by MergedSpec, and MergePalettes is proved equal to it. |
| Relinking.Step | src/app/RelinkingListView.cpp:139-145 | One `process` call on the group list as a value. GroupAggregator.Process is proved to perform it. |
| Relinking.Aggregated | src/app/RelinkingListView.cpp:139-145 | The group list after a sequence of `process` calls. AggregatedStatuses states its relation to the item statuses. |
| ImageCombination.Opaque | src/imageproc/ImageCombination.cpp:77-81 | Definition of the transparency test: the low 24 bits are not all set. BytesAreOpaque states that a widened byte always passes. |
| ImageCombination.FillValue | src/imageproc/ImageCombination.cpp:267 | Definition of the filling pixel before the cast: 0xffffffff for white, 0 for black. ApplyMaskLines states where it is written. |
| ImageCombination.RoutineFor | src/imageproc/ImageCombination.cpp:321-335 | Definition of the routine choice of impl::combineImagesColor. DispatchColor states that the chosen routine runs. |
| BinaryImages.Low8 | src/imageproc/ImageCombination.cpp:31 | Definition of `static_cast<MixedPixel>` for 8-bit pixels: the low byte. DispatchMonoMasked and DispatchApplyMask pass it to the per-pixel routines, whose contracts state the bytes written. |
| BinaryImages.Same32 | src/imageproc/ImageCombination.cpp:31 | Definition of `static_cast<MixedPixel>` for 32-bit pixels: the value itself. The 32-bit dispatch routes pass it to the per-pixel routines. |
| BinaryImages.BitSet | src/imageproc/ImageCombination.cpp:24 | Definition of the bit test `line[x >> 5] & (msb >> (x & 31))`. MonoColor states the colour derived from the same bit. |
| Sorting.SortBy | src/imageproc/PolygonUtils.cpp:85-86 | Sorting returns a permutation of its input. |
| Sorting.SortByOrdered | src/imageproc/PolygonUtils.cpp:85-86 | Under a strict weak order, the sorted sequence is ordered pairwise, not just adjacently. |
| Sorting.InsertOrdered | src/imageproc/PolygonUtils.cpp:85-86 | Inserting into an ordered sequence keeps it ordered. |
| ConvexHulls.LexLessIsStrictWeakOrder | src/imageproc/PolygonUtils.cpp:145-153 | The lexicographic comparator is a strict weak order. |
| ConvexHulls.SortedSameMembers | src/imageproc/PolygonUtils.cpp:172 | Sorting keeps the same points, and a single point stays as it is. |
| ConvexHulls.SortedExtremes | src/imageproc/PolygonUtils.cpp:172 | After sorting, the first point is lexicographically smallest and the last is largest. |
| ConvexHulls.PopNonLeftTurns | src/imageproc/PolygonUtils.cpp:176-178 | Every popped slot had at least `floor` points on the stack and its top two did not turn strictly left towards the new point. The loop stops when fewer than `floor` points remain or the top two turn strictly left, and it never pops below floor - 1. |
| ConvexHulls.PushPoint | src/imageproc/PolygonUtils.cpp:176-179 | Every entry popped from the old stack failed the turn test towards the new point (NonLeftTurnBelow on the old buffer). After popping and writing, the new point is the chain's last point. Only that slot changes, the chain keeps turning strictly left, and it holds only input points. |
| ConvexHulls.BuildLowerChain | src/imageproc/PolygonUtils.cpp:175-180 | The lower chain starts at the first sorted point, ends at the last, and turns strictly left throughout. |
| ConvexHulls.BuildUpperChain | src/imageproc/PolygonUtils.cpp:182-187 | The upper chain leaves the lower chain intact, turns strictly left from the lower chain's last point, and returns to the first point. |
| ConvexHulls.ChainsOfSorted | src/imageproc/PolygonUtils.cpp:167-189 | On sorted points, the hull holds only input points: none for no input, the point itself for one. Both chains turn strictly left, and for two or more points the hull ends where it starts. |
| ConvexHulls.ConvexHull | src/imageproc/PolygonUtils.cpp:163-196 | The hull as evidently intended: only input points, at most 2n of them, starting at the lexicographically smallest point. The lower chain ends at the largest point, both chains make only strict left turns, and a hull of two or more points is closed. |
| ConvexHulls.ConvexHullAsWritten | src/imageproc/PolygonUtils.cpp:163-196 | The polygon returned as written: `QPolygonF poly(k)` already holds k origin points, and the k points of the hull vector (from input points only, closed for two or more points) follow them. For a single input point it is [(0,0), p]. |
| Proximities.Between | src/foundation/Proximity.cpp:8-12 | The squared distance is never negative, and is zero exactly for identical points. |
| Proximities.BetweenSymmetric | src/foundation/Proximity.cpp:8-12 | The argument order does not matter. |
| Proximities.SqDist | src/foundation/Proximity.cpp:8-12 | Definition of the squared distance dx * dx + dy * dy that a Proximity holds. Between states its meaning. |
| Proximities.FootParameter | src/foundation/Proximity.cpp:24-31 | Definition of the line parameter of the point where the perpendicular through pt meets the segment's line (normalVector, translate, intersect). FootOrthogonal states its meaning. |
| Proximities.Foot | src/foundation/Proximity.cpp:24-31 | Definition of that intersection point. FootOrthogonal and FootIsNearest state its meaning. |
| Proximities.OnSegmentTest | src/foundation/Proximity.cpp:33-39 | Definition of the source's on-segment test by signs of offset products. OnSegmentTestAt and OnSegmentTestExact state its meaning. |
| Proximities.OnSegmentTestAt | src/foundation/Proximity.cpp:33-39 | For a point p1 + t(p2 - p1) on the segment's line, the offset-product test holds exactly when 0 <= t <= 1. |
| Proximities.OnSegmentTestExact | src/foundation/Proximity.cpp:24-39 | The test applied to the foot of the perpendicular holds exactly when the foot lies on the segment. |
| Proximities.PointAndLineSegment | src/foundation/Proximity.cpp:14-62 | The reported proximity is the squared distance to the reported point. A zero-length segment reports its endpoint. Otherwise the result is an endpoint or the foot of the perpendicular. |
| Proximities.FootOrthogonal | src/foundation/Proximity.cpp:24-31 | The offset from the foot to the point is orthogonal to the segment. |
| Proximities.DistanceFromOrthogonal | src/foundation/Proximity.cpp:24-31 | From the foot, the squared distance to any point of the line grows by the squared parameter offset times the squared length (Pythagoras). |
| Proximities.FootIsNearest | src/foundation/Proximity.cpp:40-45 | The foot is at least as near to the point as any point of the line. |
| Proximities.NearerAlongLine | src/foundation/Proximity.cpp:40-61 | A point of the line whose parameter is closer to the foot's is at least as near. |
| Proximities.EndpointIsNearest | src/foundation/Proximity.cpp:48-61 | When the foot falls before p1 (or after p2), that endpoint is at least as near as any point of the segment. |
| Proximities.ReportedPointOnSegment | src/foundation/Proximity.cpp:14-62 | The reported point is a point of the segment: p1 + s(p2 - p1) for some s in [0, 1]. |
| Proximities.PointAndLineSegmentIsNearest | src/foundation/Proximity.cpp:14-62 | The reported proximity is at most the squared distance to every point of the segment, endpoints included. |
| Relinking.Union | src/app/RelinkingListView.cpp:143 | A null rectangle yields the other operand. Otherwise the result is the smallest rectangle spanning both normalised rectangles: each edge is one operand's edge and bounds both. |
| Relinking.AggregatedStatuses | src/app/RelinkingListView.cpp:139-145 | The group statuses are the item statuses with consecutive repeats collapsed. Adjacent groups differ, and there are never more groups than items. |
| Relinking.GroupAggregator.constructor | src/app/RelinkingListView.cpp:32-40 | The aggregator starts with no groups. |
| Relinking.GroupAggregator.Groups | src/app/RelinkingListView.cpp:36 | The list returned has no two adjacent groups of equal status and is no longer than the items processed. |
| Relinking.GroupAggregator.Process | src/app/RelinkingListView.cpp:139-145 | A new status, or an empty list, appends a group. A repeated status widens the last group's rectangle by union and leaves earlier groups alone. The list stays the aggregation of all items seen. |

## Left out

- Coordinates are exact reals, not IEEE doubles. Rounding error, NaN and infinities are not modelled, nor are `std::floor` and `std::fabs` on them.
- QImage is modelled only as its size, format, grayscale flag, colour table and rows of pixels. Bytes-per-line, allocation and the `reinterpret_cast` of the pixel buffer are not modelled. An indexed destination's rows are a byte `array2`, and a 32-bit destination's rows a word `array2`; the two views never alias.
- The conversion of a Mono/MonoLSB QImage into a BinaryImage (`BinaryImage(foreground)`) is not part of this model. The converted image is an input to the model (`Picture.mono`).
- The `std::invalid_argument` exceptions are the `Failure` outcome with an error kind. Their message strings are not modelled.
- CombineImagesMasked: requires that the mask covers the image once the checks pass. The source does not check the mask's size here and would read past a smaller mask.
- CombineImagesWithPicture: requires that the foreground rows are readable by the chosen routine once the checks pass (CombineImagesWithPictureMasked likewise, under the mask). Both routes that read an indexed foreground through its colour table need every index to be inside that table, which the source does not check (ImageCombination.cpp:107 and 154, and 208 and 248 for the masked routines). These are the indexed-foreground-on-32-bit route and the route for an Indexed8 destination that is not a grayscale-on-grayscale combination. One consequence: for a non-empty image, the requirement rules out any 32-bit foreground on an Indexed8 destination that takes the second route, because such a foreground has an empty colour table and the source would read out of range.
- Palettes.BuildColorToIndex: the `std::unordered_map` is a Dafny `map` keyed by the colour's numeric value. Hashing, bucket order and allocation are not modelled.
- Sorting.SortBy: `std::sort` is modelled by an insertion sort. Both give the same sequence only up to the order of elements that compare equal. Before is a total order on distinct points, so for edges this matters only for identical edges.
- ConvexHulls.ConvexHull: proves that the hull's points are inputs, its extremes, strict left turns along both chains, and closure. It does not prove that every input point lies inside the hull. The per-step fact that every popped point failed the turn test is stated by PopNonLeftTurns and PushPoint, but it is not lifted into ConvexHull's contract, so that contract alone does not rule out a hull that leaves out a vertex of the true hull.
- ConvexHulls.ChainsOfSorted: the turn function is a parameter, instantiated with the cross product. The hull buffer's initial contents are left unspecified: the source value-initialises them, and they are never read before being written.
- Proximities.PointAndLineSegment: the ordering `Proximity::operator<` (declared in Proximity.h, which is not part of this model) is taken to compare squared distances. `std::min_element` then keeps p1 on a tie.
- Proximities.PointAndLineSegment: `QLineF::normalVector`, `translate` and `intersect` are modelled together as the exact projection of the point onto the segment's line.
- Proximities.PointAndLineSegment: the zero-length test `segment.p1() == segment.p2()` uses Qt's QPointF comparison, which is fuzzy (qFuzzyCompare per coordinate). The model compares exactly, so a segment whose endpoints differ by a relative error of about 1e-12 is treated as having length zero in the source but not in the model.
- PolygonUtils.Closed: the closing test `closed.back() != closed.front()` is also Qt's fuzzy QPointF comparison, modelled exactly. For FuzzyCompare this makes no difference: ClosingKeepsEdges proves that closing a polygon or not yields the same edges.
- Relinking.Union: follows QRect's `operator|` on normalised rectangles with inclusive corners. QRect's 32-bit coordinate limits are not modelled.
- The rest of RelinkingListView (painting the status layer, the delegate, the paint event) is not part of this model: it is Qt drawing code.

## Findings

| source | as written | input that shows it | evidently intended | confidence | as-written member | corrected member |
|---|---|---|---|---|---|---|
| src/imageproc/PolygonUtils.cpp:191-194 | `QPolygonF poly(k)` creates k default points (0,0); the loop then appends the k hull points after them | a single input point (1,1) returns [(0,0), (1,1)] instead of [(1,1)] | the polygon holds exactly the k hull points (`QPolygonF poly; poly.reserve(k)`) | high; not executed | ConvexHulls.ConvexHullAsWritten | ConvexHulls.ConvexHull |
