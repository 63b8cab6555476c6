# MangaParser and MangaReader, modelled in Dafny

MangaParser cuts a scanned manga page into panels ("cells"), puts the
panels in reading order and packs them into views that fit the screen.
MangaReader is the WPF viewer built on it. It compares page file names
"naturally", keeps a list of recently read mangas, and moves through a
page with one of three view handlers. This project models that pipeline
and the reader's pure logic as Dafny functions and methods. Their
contracts state what the code promises, and lemmas relate the operations
to each other.

One module per source file or component:

- `Util` holds Option and Result, which model thrown exceptions. It also has C# truncating division (`CDiv`), 32-bit wrap-around and min/max.
- `Drawing` models `System.Drawing` rectangles, points, the matrices the reader uses, `Union`, `Intersect`, `IntersectsWith` and `Inflate`.
- `Sorting` is a stable sort by an integer key.
- `ReadingUtilities` covers interval and rectangle overlap and `Rectangle.Transform`.
- `Polygons` covers the shoelace area, ray-casting containment and the `Rectangle` factory.
- `Shapes` is the `IPolygon` variants, a plain polygon or a `TransformedPolygon` layer.
- `Directions` holds the four reading-direction matrices and their inverses.
- `Blobs` models `Blob.cs`: segments, regions, bounding box, merge, area, scan extremities, the monotone-chain hull and convex inclusion.
- `Raster` models `Graphics.cs`.
  - A mask is `seq<seq<bool>>`.
  - Rows are packed into runs.
  - The row merge is a state machine over an arena of blobs, indexed by position.
  - `RasterDisjoint` proves the corrected merge keeps blobs disjoint.
  - `RasterCounterexample` traces the merge as written on a 5 × 5 mask.
  - `RasterOutline` traces an outline square to one blob.
- `Segmentation` covers the threshold clamp, the blob size filter, the contained-polygon filter and the full-page decision.
- `ReadingGraph` and `ReadingOrder` model `DefaultReadingOrder.cs`.
  - Cells are identified by their index in the input.
  - The graph is a list of edge lists.
- `Merging`, `Strip` and `Views` cover the viewers.
  - The merging viewer and the cells viewer's overlap test.
  - The strip viewer's breaks, balancer and split.
  - The full-page viewer.
  - The page constructor.
  - `MangaPageUtil.ComputeView`.
- `DirectoryManager`, `RecentMangas`, `WpfUtil`, `ViewHandlers` and `PageViewers` cover the reader.

An operation that throws in C# returns `Err` with the kind of exception.
A reader operation that changes state before it throws returns the
changed state together with the exception.

## Model

| member | source | states |
|---|---|---|
| Util.CDiv | MangaParser/Geometry/Polygon.cs:48 | C# integer division truncates toward zero: the remainder has the sign of the dividend and is smaller than the divisor |
| Util.CDivOdd | MangaParser/Geometry/Polygon.cs:48 | truncating division is symmetric about zero |
| Util.Wrap32 | MangaParser/Segmentation/AFAdapter/AFThresholdBlobSegmentation.cs:194-202 | 32-bit wrap-around: the result is a 32-bit value congruent to the input modulo 2^32, the input itself when it fits |
| Util.CDivNonNegative | MangaReader/WPFUtil.cs:28-29 | for a non-negative dividend and a positive divisor, truncating division agrees with floor division |
| Drawing.FromLTRB | MangaParser/Segmentation/MyAdapter/Blob.cs:59 | `Rectangle.FromLTRB` has the given four edges |
| Drawing.Union | MangaParser/Views/FullPageViewer.cs:17-19 | `Rectangle.Union` contains both rectangles |
| Drawing.UnionLeast | MangaParser/Views/FullPageViewer.cs:17-19 | any rectangle containing both contains their union |
| Drawing.Intersect | MangaParser/Geometry/ReadingUtilities.cs:55 | `Rectangle.Intersect` has non-negative size (empty when the two do not meet) |
| Drawing.Inflate | MangaParser/ReadingOrder/DefaultReadingOrder.cs:40-41 | `Inflate(dx, dy)` moves each side outward by dx horizontally and dy vertically |
| Drawing.UnionEdges | MangaParser/Geometry/ReadingUtilities.cs:53-56 | the union spans from the lesser left and top edges to the greater right and bottom edges |
| Sorting.SortBy | MangaParser/Segmentation/MyAdapter/Blob.cs:104-112 | the list sort yields a permutation of its input sorted by the key |
| Sorting.SortByStable | MangaParser/Segmentation/MyAdapter/Blob.cs:104-112 | elements with equal keys keep their relative order (the model's choice among the orders an unstable sort may give) |
| Sorting.InsertBy | MangaParser/Segmentation/MyAdapter/Blob.cs:104-112 | inserting into a sorted list keeps it sorted and adds exactly the one element |
| ReadingUtilities.SegmentsIntersectMeaning | MangaParser/Geometry/ReadingUtilities.cs:21-24 | for non-empty half-open intervals, `intersect` holds exactly when some integer lies in both; it is symmetric, and intervals that only touch do not intersect |
| ReadingUtilities.HeightIntersectMeaning | MangaParser/Geometry/ReadingUtilities.cs:32-35 | two rectangles of positive height intersect in height exactly when some row lies in both, whichever comes first |
| ReadingUtilities.Area | MangaParser/Geometry/ReadingUtilities.cs:42-45 | the area of a rectangle of non-negative size is non-negative, and positive when both sides are |
| ReadingUtilities.OverlapProperties | MangaParser/Geometry/ReadingUtilities.cs:53-56 | the overlap area is symmetric, positive only for intersecting rectangles (and for every intersecting pair of positive size), and at most either rectangle's area |
| ReadingUtilities.AreaMonotone | MangaParser/Geometry/ReadingUtilities.cs:42-45 | a rectangle no wider and no taller than another has no larger area |
| ReadingUtilities.YOverlapProperties | MangaParser/Geometry/ReadingUtilities.cs:65-68 | the vertical overlap is symmetric, at most either height, and positive exactly when two rectangles of positive height intersect in height |
| ReadingUtilities.Transform | MangaParser/Geometry/ReadingUtilities.cs:78-96 | the transformed rectangle has non-negative size, holds the four mapped corners, and each of its edges is reached by some mapped corner: it is their bounding box |
| ReadingUtilities.TransformIdentity | MangaParser/Geometry/ReadingUtilities.cs:78-96 | under the identity matrix a rectangle of non-negative size is unchanged |
| ReadingUtilities.Overlap | MangaParser/Geometry/ReadingUtilities.cs:53-56 | the overlap area is never negative |
| ReadingUtilities.YOverlap | MangaParser/Geometry/ReadingUtilities.cs:65-68 | the overlap of two height ranges is never negative |
| Polygons.ChainSumReverse | MangaParser/Geometry/Polygon.cs:43-46 | reversing the point order negates the sum of cross products along the chain |
| Polygons.AreaReverse | MangaParser/Geometry/Polygon.cs:34-53 | the area is signed: a polygon traversed in the opposite direction has the opposite area |
| Polygons.ComputeArea | MangaParser/Geometry/Polygon.cs:34-53 | the loop over edges (j trailing i) computes half the shoelace sum, truncated toward zero; no points give area 0 |
| Polygons.ToggledParity | MangaParser/Geometry/Polygon.cs:55-70 | after any number of edges the flag is set exactly when an odd number of edges crossed the ray to the right of the point |
| Polygons.Area | MangaParser/Geometry/Polygon.cs:34-53 | the `Area` property; AreaReverse states that it is signed and ComputeArea that the loop computes it |
| Polygons.ContainsPoint | MangaParser/Geometry/Polygon.cs:55-70 | `Contains(point)`; ContainsPointParity states that it is the even-odd rule |
| Polygons.ContainsPointParity | MangaParser/Geometry/Polygon.cs:55-70 | `Contains(point)` is the even-odd rule: true exactly when an odd number of edges cross; a polygon without points contains nothing |
| Polygons.RectangleContains | MangaParser/Geometry/Polygon.cs:55-70 | for a rectangle of positive size given by its four corners, the test accepts exactly the points of the half-open rectangle [x, x+w) × [y, y+h) |
| Polygons.RectangleArea | MangaParser/Geometry/Polygon.cs:34-53 | the four corners of a w × h rectangle, in the factory's order, have area w·h |
| Polygons.RectangleAsWritten | MangaParser/Geometry/Polygon.cs:88-98 | the factory's box is (x, y, w, h) and its points are the four corners in order |
| Polygons.RectangleCentreOutside | MangaParser/Geometry/Polygon.cs:95 | the factory's centre of a 30 × 10 rectangle at the origin is (15, 35), below the rectangle |
| Polygons.RectangleCentreBelow | MangaParser/Geometry/Polygon.cs:88-98 | the factory's centre of a rectangle at the origin lies below its bottom edge whenever twice the width exceeds the height plus one, as for any page less than about twice as high as wide |
| Polygons.RectanglePolygon | MangaParser/Geometry/Polygon.cs:88-98 | the corrected factory: same box and corners, and for non-negative sizes a centre inside the rectangle |
| Polygons.RectangleTestCases | MangaParserTest/GeometryTests.cs:56-70 | the points the rectangle test accepts and rejects are accepted and rejected |
| Polygons.TriangleTestCases | MangaParserTest/GeometryTests.cs:73-90 | the points the triangle test accepts and rejects are accepted and rejected |
| Polygons.RectangleAreaTestCase | MangaParserTest/GeometryTests.cs:93-103 | the 10 × 20 rectangle of the area test has area 200 |
| Polygons.TriangleAreaTestCase | MangaParserTest/GeometryTests.cs:106-115 | the triangle of the area test has area 100 |
| Polygons.RectangleInclusionCases | MangaParserTest/GeometryTests.cs:118-155 | a rectangle contains a rectangle inside it and not the other way round; two crossing rectangles contain neither |
| Shapes.MapPoints | MangaParser/Geometry/TransformedPolygon.cs:78-86 | the points keep their number and order, each mapped by the matrix |
| Shapes.Points | MangaParser/Geometry/TransformedPolygon.cs:72-91 | a wrapped polygon has as many points as the polygon at its root |
| Shapes.BasePolygon | MangaParser/Geometry/TransformedPolygon.cs:98-102 | the base polygon is the one the wrapper was built from, so wrapping it again in the same matrix gives the wrapper back |
| Shapes.LayersAreTransparent | MangaParser/Geometry/TransformedPolygon.cs:22-70 | through any number of wrappers, area and point containment are those of the root polygon, the point not transformed |
| Shapes.ContainsUntransformed | MangaParser/Geometry/TransformedPolygon.cs:59-65 | a wrapped polygon contains another wrapped one exactly when their bases do |
| Shapes.PointsRoundTrip | MangaParser/Geometry/TransformedPolygon.cs:72-91 | mapping a wrapper's points by the inverse direction matrix gives back the base polygon's points |
| Shapes.Cog | MangaParser/Geometry/TransformedPolygon.cs:45-56 | the centre of a wrapper is its base's centre mapped by the matrix; CogRoundTrip states it |
| Shapes.CogRoundTrip | MangaParser/Geometry/TransformedPolygon.cs:45-56 | a wrapper's centre is its base's centre mapped by the direction matrix, and the inverse matrix maps it back |
| Shapes.TransformedBoxBounds | MangaParser/Geometry/TransformedPolygon.cs:27-43 | the wrapper's box, computed from the base box alone, still holds all the wrapper's points when the base box holds the base points |
| Directions.DirectionMatrix | MangaParser/Page.cs:91-105 | each direction's matrix has entries in {-1, 0, 1}, is a signed permutation matrix |
| Directions.InverseIsInvert | MangaParser/Page.cs:111-116 | each direction matrix has determinant ±1 and its inverse is the tabulated inverse matrix |
| Directions.DirectionMaps | MangaParser/Page.cs:91-116 | the direction matrix mirrors x (DownLeft), swaps the axes (RightDown), rotates (LeftDown) or does nothing (DownRight), and the inverse undoes it |
| Directions.InverseUndoes | MangaParser/Page.cs:91-116 | each point mapped by a direction matrix and its inverse, in either order, comes back |
| Directions.SelfInverse | MangaParser/Page.cs:91-116 | every direction matrix but LeftDown's is its own inverse; DownRight's is the identity |
| Directions.TransformUnderDirection | MangaParser/Geometry/ReadingUtilities.cs:78-96 | the box of a rectangle of non-negative size under a direction matrix or its inverse is the mirrored, transposed or rotated rectangle |
| Directions.TransformRoundTrip | MangaParser/MangaPageUtil.cs:17-20 | a rectangle of non-negative size taken into reading space and back, or back and forth, is unchanged |
| Directions.BoxesUndo | MangaParser/Page.cs:91-116 | the directed and undirected boxes undo each other |
| Directions.TransformKeepsInside | MangaParser/Geometry/ReadingUtilities.cs:78-96 | a point of a rectangle, mapped by a direction matrix, lies in the mapped rectangle |
| Directions.InverseMatrix | MangaParser/Page.cs:111-116 | each inverse direction matrix has entries in {-1, 0, 1} and no translation |
| Directions.BoxMirrored | MangaParser/Geometry/ReadingUtilities.cs:78-96 | the box of a rectangle mirrored left to right is the mirrored rectangle |
| Directions.BoxTransposed | MangaParser/Geometry/ReadingUtilities.cs:78-96 | the box of a transposed rectangle is the transposed rectangle |
| Directions.BoxRotated | MangaParser/Geometry/ReadingUtilities.cs:78-96 | the box of a rectangle turned a quarter one way is the turned rectangle |
| Directions.BoxUnrotated | MangaParser/Geometry/ReadingUtilities.cs:78-96 | the box of a rectangle turned a quarter the other way is the turned rectangle |
| Blobs.CompareSegmentsOrder | MangaParser/Segmentation/MyAdapter/Blob.cs:30-34 | `Segment.CompareTo` is positive exactly when the other segment starts later (or starts together and ends later); it is antisymmetric, zero only on equal segments, and transitive |
| Blobs.AddRegion | MangaParser/Segmentation/MyAdapter/Blob.cs:65-89 | the region is appended; the sorted flag survives only when the segment ends before it starts, because the flag compares the region just added with itself |
| Blobs.SingleBlob | MangaParser/Segmentation/MyAdapter/Blob.cs:80-83 | a blob built from one region holds just it, flagged sorted only for a segment that ends before it starts |
| Blobs.MergeWith | MangaParser/Segmentation/MyAdapter/Blob.cs:91-102 | the merge throws exactly when the two blobs share a region; otherwise the contents are concatenated and the blob is flagged unsorted unless both are empty |
| Blobs.MergeWithSelfFails | MangaParser/Segmentation/MyAdapter/Blob.cs:91-99 | merging a non-empty blob with itself throws |
| Blobs.BoundingBox | MangaParser/Segmentation/MyAdapter/Blob.cs:43-62 | the box exists exactly for a non-empty blob; reading the first region of an empty one is out of range |
| Blobs.BoundingBoxTight | MangaParser/Segmentation/MyAdapter/Blob.cs:43-62 | the box holds every region (one row high each) and each of its four edges is reached by some region |
| Blobs.MergeBoundingBox | MangaParser/Segmentation/MyAdapter/Blob.cs:43-102 | the box of a merged blob is the union of the two boxes |
| Blobs.AreaAdditive | MangaParser/Segmentation/MyAdapter/Blob.cs:143-151 | the area of a merge is the sum of the areas, and adding a region adds its width |
| Blobs.ProperPreserved | MangaParser/Segmentation/MyAdapter/Blob.cs:75-102 | blobs whose segments all have positive width stay so under construction, region addition and merging |
| Blobs.SortedContent | MangaParser/Segmentation/MyAdapter/Blob.cs:104-112 | `sort` yields a permutation of the regions, sorted by row unless the blob was already flagged sorted |
| Blobs.ScanExtremities | MangaParser/Segmentation/MyAdapter/Blob.cs:118-141 | an empty blob yields no points; a non-empty one yields at least two, starting with the left end of the first sorted region and ending with the right end of the last |
| Blobs.ScanFrom | MangaParser/Segmentation/MyAdapter/Blob.cs:118-141 | the scan loop yields at least the pending end; ScanIsExtremities states what it yields region by region |
| Blobs.ScanFromLast | MangaParser/Segmentation/MyAdapter/Blob.cs:118-141 | the scan always ends with the right end of the last region, on its row |
| Blobs.ScanIsExtremities | MangaParser/Segmentation/MyAdapter/Blob.cs:118-141 | the scan's output is, region by region, the start of each row's first segment and the end of each row's last segment (when no segment ends at -1, the loop's sentinel) |
| Blobs.ScanExtremitiesMeaning | MangaParser/Segmentation/MyAdapter/Blob.cs:118-141 | `toScanExtremities` yields the row ends of the row-sorted content |
| Blobs.ScanSingleRegion | MangaParser/Segmentation/MyAdapter/Blob.cs:118-141 | a one-region blob yields the two ends of its segment |
| Blobs.Push | MangaParser/Segmentation/MyAdapter/Blob.cs:175-178 | popping non-left turns then pushing keeps the chain strictly turning, ends it with the new point and keeps its first point |
| Blobs.Chain | MangaParser/Segmentation/MyAdapter/Blob.cs:171-189 | each half-hull is a strictly turning chain from the first point to the last, made only of input points |
| Blobs.HullChains | MangaParser/Segmentation/MyAdapter/Blob.cs:161-194 | the hull is the lower chain and the upper chain (the reversed scan), each with its last point dropped |
| Blobs.HullMembers | MangaParser/Segmentation/MyAdapter/Blob.cs:161-194 | every hull vertex is one of the scanned points |
| Blobs.ConvexHull | MangaParser/Segmentation/MyAdapter/Blob.cs:161-194 | an empty blob has an empty hull; otherwise the hull of its scanned extremities, of at least two points |
| Blobs.ConvexInclude | MangaParser/Segmentation/MyAdapter/Blob.cs:196-209 | a point is included exactly when it lies in the closed bounding box and strictly left of every hull edge; an empty blob throws on its box |
| Blobs.HullVerticesExcluded | MangaParser/Segmentation/MyAdapter/Blob.cs:196-209 | because the test is strict, no hull vertex is included in its own blob |
| Blobs.BoxOfAppend | MangaParser/Segmentation/MyAdapter/Blob.cs:43-62 | the box of two region lists put together is the union of their boxes |
| Blobs.SumWidthsAppend | MangaParser/Segmentation/MyAdapter/Blob.cs:143-151 | the summed widths of two region lists put together is the sum of the two |
| Blobs.ScanStart | MangaParser/Segmentation/MyAdapter/Blob.cs:105-141 | the scan starts with the left end of the first region, then continues from its right end |
| Blobs.HullOf | MangaParser/Segmentation/MyAdapter/Blob.cs:156-194 | a hull of at least two points starts at the first point |
| Blobs.VectorProduct | MangaParser/Segmentation/MyAdapter/Blob.cs:153-159 | `vectorProduct`; VectorProductOrientation states that it is an orientation |
| Blobs.VectorProductOrientation | MangaParser/Segmentation/MyAdapter/Blob.cs:153-159 | swapping the two ends negates the turn test, rotating the three points keeps it, and two coinciding points give 0 |
| Blobs.UpperEnds | MangaParser/Segmentation/MyAdapter/Blob.cs:156-194 | the upper chain runs from the last point back to the first |
| Blobs.VerticesNotLeft | MangaParser/Segmentation/MyAdapter/Blob.cs:196-209 | no hull vertex is strictly left of every edge, because one edge starts at it |
| Raster.ParseStride | MangaParser/Segmentation/MyAdapter/Graphics.cs:41-54 | one flag per pixel, set exactly for opaque black (0xff000000) |
| Raster.PackRow | MangaParser/Segmentation/MyAdapter/Graphics.cs:56-72 | `packRow`; PackRowMeaning states its runs are separated and cover exactly the foreground |
| Raster.PackRowMeaning | MangaParser/Segmentation/MyAdapter/Graphics.cs:56-72 | the runs of a row are separated by at least one background cell, lie within the row, and cover exactly its foreground cells |
| Raster.PackRowLoop | MangaParser/Segmentation/MyAdapter/Graphics.cs:56-72 | the `packRow` loop produces separated runs covering exactly the foreground cells |
| Raster.JoinedMeaning | MangaParser/Segmentation/MyAdapter/Graphics.cs:98-113 | a current run and a previous-row run are joined exactly when their closed extents meet (8-connectivity); the relation is symmetric |
| Raster.Retarget | MangaParser/Segmentation/MyAdapter/Graphics.cs:126-132 | renaming replaces the absorbed blob by the absorbing one from the given position on and changes nothing else |
| Raster.Join | MangaParser/Segmentation/MyAdapter/Graphics.cs:113-142 | a joined pair leaves the cursors alone and never grows the arena or the registered set. With no owner yet, the previous run's blob takes the region and owns the run. With the same owner, nothing changes. With another owner, the merge throws exactly when the two blobs share a region; otherwise the owner absorbs the blob, which leaves the registered set and the previous row's owners from `j` on. As written, the owners already found keep it; corrected, none does |
| Raster.Step | MangaParser/Segmentation/MyAdapter/Graphics.cs:96-152 | one turn of the merge loop keeps every owner a blob of the arena, strictly advances a cursor, never shrinks the arena and never registers a new blob |
| Raster.Loop | MangaParser/Segmentation/MyAdapter/Graphics.cs:96-152 | the loop ends with one of the two rows exhausted, its bookkeeping intact |
| Raster.CreateBlobs | MangaParser/Segmentation/MyAdapter/Graphics.cs:74-77 | one fresh single-region blob per run, appended in order, the existing blobs untouched |
| Raster.MergeBlobs | MangaParser/Segmentation/MyAdapter/Graphics.cs:79-172 | when it succeeds, every run of the current row has an owner, every owner is registered, and nothing else is newly registered |
| Raster.RowStep | MangaParser/Segmentation/MyAdapter/Graphics.cs:186-199 | a row after an empty one only creates blobs and cannot fail; otherwise it merges; either way the new row becomes the previous row |
| Raster.IdentifyBlobs | MangaParser/Segmentation/MyAdapter/Graphics.cs:174-204 | every registered blob is one of the blobs made |
| RasterOutline.OutlineSquareOneBlob | MangaParserTest/CustomSegmenterTests.cs:84-96 | the one-pixel outline of a 2 × 2 rectangle at (1, 1) is one registered blob whose box is (1, 1, 3, 3), one more than the rectangle's size on each side, with the merge as written and corrected |
| Raster.IdentifyBlobsBackground | MangaParser/Segmentation/MyAdapter/Graphics.cs:174-204 | a mask with no foreground yields no blobs |
| Raster.ScanRows | MangaParser/Segmentation/MyAdapter/Graphics.cs:174-204 | scanning the rows keeps every registered blob and every owner of the previous row in the arena |
| Raster.PackRowBackground | MangaParser/Segmentation/MyAdapter/Graphics.cs:56-72 | a row without foreground packs to no runs |
| Raster.ScanBackground | MangaParser/Segmentation/MyAdapter/Graphics.cs:174-204 | scanning rows without runs registers nothing |
| RasterDisjoint.MergeBlobsCorrected | MangaParser/Segmentation/MyAdapter/Graphics.cs:79-172 | with the owners of the current row renamed too, a row whose previous row was sound never fails, keeps the registered blobs pairwise disjoint, and gives every run an owner holding it |
| RasterDisjoint.IdentifyBlobsCorrected | MangaParser/Segmentation/MyAdapter/Graphics.cs:174-204 | with the corrected merge, every mask yields pairwise disjoint registered blobs, all above the mask's last row |
| RasterDisjoint.StepInv | MangaParser/Segmentation/MyAdapter/Graphics.cs:96-152 | with the corrected renaming, one turn of the merge loop never fails and keeps the owners' regions apart |
| RasterDisjoint.LoopCorrected | MangaParser/Segmentation/MyAdapter/Graphics.cs:96-152 | with the corrected renaming, the merge loop never fails and leaves the owners' regions apart |
| RasterDisjoint.OwnersDisjoint | MangaParser/Segmentation/MyAdapter/Graphics.cs:168-170 | owners whose regions are apart leave the registered blobs pairwise disjoint once the row's owners are added |
| RasterDisjoint.CreateBlobsSound | MangaParser/Segmentation/MyAdapter/Graphics.cs:74-77 | fresh blobs for a row after an empty one keep the registered blobs disjoint |
| RasterDisjoint.RowStepSound | MangaParser/Segmentation/MyAdapter/Graphics.cs:186-199 | with the corrected merge, a row step never fails and keeps the registered blobs disjoint |
| RasterDisjoint.ScanRowsSound | MangaParser/Segmentation/MyAdapter/Graphics.cs:174-204 | with the corrected merge, scanning any rows of separated runs never fails and keeps the registered blobs disjoint |
| RasterCounterexample.AsWrittenSharesRegions | MangaParser/Segmentation/MyAdapter/Graphics.cs:126-170 | on the first four rows of the 5 × 5 mask, the merge as written leaves two registered blobs that share a region |
| RasterCounterexample.AsWrittenFails | MangaParser/Segmentation/MyAdapter/Graphics.cs:123-170 | on the whole 5 × 5 mask the scan as written throws in `MergeWith`, while the corrected scan succeeds |
| Segmentation.WithThreshold | MangaParser/Segmentation/AFAdapter/AFThresholdBlobSegmentation.cs:74-77 | the threshold kept is the requested one clamped into 0..255 |
| Segmentation.WithThresholdStable | MangaParser/Segmentation/AFAdapter/AFThresholdBlobSegmentation.cs:74-77 | clamping an already clamped threshold changes nothing, and a larger request never gives a smaller threshold |
| Segmentation.KeepBox | MangaParser/Segmentation/AFAdapter/AFThresholdBlobSegmentation.cs:112-118 | the size test on fractions of the page; KeepBoxIntegers states it without fractions |
| Segmentation.KeepBoxIntegers | MangaParser/Segmentation/AFAdapter/AFThresholdBlobSegmentation.cs:112-118 | a blob is kept exactly when both sides exceed 5% of the page's and at least one side stays under 95% of it, stated without fractions |
| Segmentation.KeepBoxRejects | MangaParser/Segmentation/AFAdapter/AFThresholdBlobSegmentation.cs:112-118 | a blob the size of the whole page is dropped, and so is one at most 5% of the page wide |
| Segmentation.FilterBlobs | MangaParser/Segmentation/AFAdapter/AFThresholdBlobSegmentation.cs:112-118 | the blobs kept are, in their order, exactly those whose box passes the size test |
| Segmentation.FilterBlobsIdempotent | MangaParser/Segmentation/AFAdapter/AFThresholdBlobSegmentation.cs:112-118 | filtering the filtered blobs again keeps them all |
| Segmentation.FilterContainedPolygons | MangaParser/Segmentation/AFAdapter/AFThresholdBlobSegmentation.cs:133-156 | the polygons kept are, in order, those not marked as contained; a list in which no polygon includes another comes back whole |
| Segmentation.SurvivorsSubsequence | MangaParser/Segmentation/AFAdapter/AFThresholdBlobSegmentation.cs:153-155 | the zipped filter keeps a subsequence of the polygons |
| Segmentation.SurvivorsKeep | MangaParser/Segmentation/AFAdapter/AFThresholdBlobSegmentation.cs:153-155 | every unmarked polygon is kept |
| Segmentation.SurvivorsUnmarked | MangaParser/Segmentation/AFAdapter/AFThresholdBlobSegmentation.cs:153-155 | with no mark set, the list is kept unchanged |
| Segmentation.NothingMarked | MangaParser/Segmentation/AFAdapter/AFThresholdBlobSegmentation.cs:135-151 | when no polygon includes another, no pass of the outer loop sets a mark |
| Segmentation.MarksMonotone | MangaParser/Segmentation/AFAdapter/AFThresholdBlobSegmentation.cs:139-151 | once a polygon is marked it stays marked through the later passes |
| Segmentation.MarkHasCause | MangaParser/Segmentation/AFAdapter/AFThresholdBlobSegmentation.cs:139-151 | a mark is only ever set by an earlier unmarked polygon that includes the marked one |
| Segmentation.MarkedMeaning | MangaParser/Segmentation/AFAdapter/AFThresholdBlobSegmentation.cs:139-151 | after `t` passes a polygon is marked exactly when one of the first `t` polygons marked it |
| Segmentation.MutualContainment | MangaParser/Segmentation/AFAdapter/AFThresholdBlobSegmentation.cs:139-151 | of two polygons that include each other, at least one is marked |
| Segmentation.MutualPair | MangaParser/Segmentation/AFAdapter/AFThresholdBlobSegmentation.cs:133-156 | of two polygons that include each other, only the first is kept |
| Segmentation.CellsCoverAppend | MangaParser/Segmentation/AFAdapter/AFThresholdBlobSegmentation.cs:204-214 | the covered area of two lists put together is the sum of their covered areas |
| Segmentation.CellsCoverSigned | MangaParser/Segmentation/AFAdapter/AFThresholdBlobSegmentation.cs:204-214 | the areas summed are signed: a polygon and its reversal cancel out |
| Segmentation.RectangleCover | MangaParser/Segmentation/AFAdapter/AFThresholdBlobSegmentation.cs:204-214 | an axis-aligned rectangle polygon covers width times height |
| Segmentation.IsFullPageAsWritten | MangaParser/Segmentation/AFAdapter/AFThresholdBlobSegmentation.cs:194-225 | the full-page decision with `area * 255` wrapped to 32 bits; FullPageWrapCounterexample shows it differs from the exact one |
| Segmentation.IsFullPage | MangaParser/Segmentation/AFAdapter/AFThresholdBlobSegmentation.cs:194-225 | the full-page decision in exact arithmetic; IsFullPageIntegers states it without fractions |
| Segmentation.IsWhiteAsWritten | MangaParser/Segmentation/AFAdapter/AFThresholdBlobSegmentation.cs:198-201 | `isWhite` with `area * 255` wrapped to 32 bits; ThresholdsAgree states when it is the exact test |
| Segmentation.IsBlackAsWritten | MangaParser/Segmentation/AFAdapter/AFThresholdBlobSegmentation.cs:193-196 | `isBlack` with `area * 255` wrapped to 32 bits; ThresholdsAgree states when it is the exact test |
| Segmentation.IsWhite | MangaParser/Segmentation/AFAdapter/AFThresholdBlobSegmentation.cs:198-201 | `isWhite` in exact arithmetic; WhiteExcludesBlack states that it excludes `isBlack` |
| Segmentation.IsBlack | MangaParser/Segmentation/AFAdapter/AFThresholdBlobSegmentation.cs:193-196 | `isBlack` in exact arithmetic; WhiteExcludesBlack states that it excludes `isWhite` |
| Segmentation.ThresholdsAgree | MangaParser/Segmentation/AFAdapter/AFThresholdBlobSegmentation.cs:193-201 | while `area * 255` fits in 32 bits, both tests as written are the exact ones |
| Segmentation.WhiteExcludesBlack | MangaParser/Segmentation/AFAdapter/AFThresholdBlobSegmentation.cs:193-201 | in exact arithmetic, no intensity is both white and black when the two thresholds add up to at least one, as the 0.95 and 0.6 of `IsFullPage` do |
| Segmentation.IsFullPageIntegers | MangaParser/Segmentation/AFAdapter/AFThresholdBlobSegmentation.cs:194-225 | a page is a full page exactly when it is brighter than 95% white, no brighter than 40% white, or its cells cover less than 40% of it |
| Segmentation.SmallPagesAgree | MangaParser/Segmentation/AFAdapter/AFThresholdBlobSegmentation.cs:194-225 | while area · 255 fits in 32 bits, the check as written and the exact one agree |
| Segmentation.WrappedPageArea | MangaParser/Segmentation/AFAdapter/AFThresholdBlobSegmentation.cs:196-201 | for a 3000 × 3000 page, area · 255 wraps to a negative 32-bit value |
| Segmentation.FullPageWrapCounterexample | MangaParser/Segmentation/AFAdapter/AFThresholdBlobSegmentation.cs:194-225 | a 3000 × 3000 page fully covered by one cell, of mid-grey intensity, is a full page as written but not by the exact check |
| ReadingGraph.Shrunk | MangaParser/ReadingOrder/DefaultReadingOrder.cs:40-41 | the box `Compare` works with; ShrunkMeaning states it moves each side in by a tenth |
| ReadingGraph.ShrunkMeaning | MangaParser/ReadingOrder/DefaultReadingOrder.cs:40-41 | for a box of non-negative size, the truncated tenth-inflation moves each side in by a tenth of the width or height, rounded down |
| ReadingGraph.Compare | MangaParser/ReadingOrder/DefaultReadingOrder.cs:34-62 | unrelated when the second shrunk box lies wholly left of or above the first; otherwise RightOf exactly when the shrunk boxes share rows and the second centre is further right, and BottomOf exactly when they share no rows and the second centre is lower |
| ReadingGraph.CompareAntisymmetric | MangaParser/ReadingOrder/DefaultReadingOrder.cs:34-62 | a cell related to another is not related back, and no cell is related to itself |
| ReadingGraph.WithRelation | MangaParser/ReadingOrder/DefaultReadingOrder.cs:90 | picking the edges of one relation keeps exactly those edges |
| ReadingGraph.WithRelationAscending | MangaParser/ReadingOrder/DefaultReadingOrder.cs:90 | picking the edges of one relation keeps them in ascending target order |
| ReadingGraph.HeadBelowTail | MangaParser/ReadingOrder/DefaultReadingOrder.cs:90 | in an ascending list the first target is below every target after it |
| ReadingGraph.AscendingCons | MangaParser/ReadingOrder/DefaultReadingOrder.cs:90 | an edge below every target of an ascending list can be put in front of it |
| ReadingGraph.SortByRelation | MangaParser/ReadingOrder/DefaultReadingOrder.cs:90 | sorting by relation keeps exactly the BottomOf and RightOf edges |
| ReadingGraph.SortByRelationDistinct | MangaParser/ReadingOrder/DefaultReadingOrder.cs:90 | sorting an ascending list by relation never repeats a target |
| ReadingGraph.SortByRelationSorted | MangaParser/ReadingOrder/DefaultReadingOrder.cs:90 | after sorting, BottomOf edges come before RightOf edges |
| ReadingGraph.Connectivity | MangaParser/ReadingOrder/DefaultReadingOrder.cs:75-88 | the inner loop lists, in input order, exactly the other cells a cell is related to, each with its relation |
| ReadingGraph.BuildRelationGraph | MangaParser/ReadingOrder/DefaultReadingOrder.cs:69-95 | every cell has a list; an edge (r, p2) is in p1's list exactly when p1 and p2 differ and compare as r, with r not unrelated; each list holds BottomOf before RightOf |
| ReadingGraph.RelationGraphAntisymmetric | MangaParser/ReadingOrder/DefaultReadingOrder.cs:69-95 | the graph never holds an edge both ways between two cells |
| ReadingGraph.KeepDirect | MangaParser/ReadingOrder/DefaultReadingOrder.cs:119-122 | removing the shortcuts from a list keeps, in order, exactly the edges that are not implied through another edge |
| ReadingGraph.SimplifyTransitiveClosure | MangaParser/ReadingOrder/DefaultReadingOrder.cs:97-123 | only edges are removed, all decided on the unmodified graph: an edge goes exactly when it is reached through a BottomOf edge, or is RightOf and reached through a RightOf edge |
| ReadingGraph.SimplifyRemovesImplied | MangaParser/ReadingOrder/DefaultReadingOrder.cs:103-115 | an edge implied by one of the two patterns is removed |
| ReadingGraph.EdgesTo | MangaParser/ReadingOrder/DefaultReadingOrder.cs:135-138 | the inverted edges a list contributes to one cell are exactly its edges to that cell, turned round |
| ReadingGraph.EdgesToNone | MangaParser/ReadingOrder/DefaultReadingOrder.cs:135-138 | a list with no edge to a cell contributes nothing to it |
| ReadingGraph.EdgesToAtMostOne | MangaParser/ReadingOrder/DefaultReadingOrder.cs:135-138 | a list without repeated targets contributes at most one inverted edge to a cell |
| ReadingGraph.Incoming | MangaParser/ReadingOrder/DefaultReadingOrder.cs:133-139 | the inverted list of a cell holds exactly the edges pointing at it from the cells scanned so far, in ascending source order |
| ReadingGraph.InvertGraph | MangaParser/ReadingOrder/DefaultReadingOrder.cs:125-146 | the inverted graph has the same cells, no repeated sources, and each list sorted BottomOf before RightOf |
| ReadingGraph.InvertGraphMeaning | MangaParser/ReadingOrder/DefaultReadingOrder.cs:125-146 | (r, p1) is in the inverted list of p2 exactly when (r, p2) is in the list of p1 |
| ReadingOrder.FirstMinimum | MangaParser/ReadingOrder/DefaultReadingOrder.cs:172-182 | the first unread cell of least top, found by a strict comparison, or none when every cell is read |
| ReadingOrder.Unconstrained | MangaParser/ReadingOrder/DefaultReadingOrder.cs:154-157 | exactly the cells with no incoming edge, each once |
| ReadingOrder.EnabledPolygons | MangaParser/ReadingOrder/DefaultReadingOrder.cs:154-157 | the cells with no predecessor, each once, ordered by the top of their box |
| ReadingOrder.LeftNeighbours | MangaParser/ReadingOrder/DefaultReadingOrder.cs:194-198 | the unread cells a cell is RightOf |
| ReadingOrder.GetNextPolygon | MangaParser/ReadingOrder/DefaultReadingOrder.cs:168-207 | the fallback always answers an unread cell, and answers the topmost unread cell when that cell has no unread left neighbour |
| ReadingOrder.ReadyCellExists | MangaParser/ReadingOrder/DefaultReadingOrder.cs:159-162 | in a graph with a ranking, some unread cell has all its predecessors read |
| ReadingOrder.StuckMeansCyclic | MangaParser/ReadingOrder/DefaultReadingOrder.cs:226-231 | when unread cells remain but none can be enabled, the graph has a cycle, so on an acyclic graph the fallback never runs |
| ReadingOrder.PredecessorsFirstTopological | MangaParser/ReadingOrder/DefaultReadingOrder.cs:213-246 | an order in which every cell comes after its predecessors in the inverted graph is a topological order of the graph |
| ReadingOrder.NewlyEnabled | MangaParser/ReadingOrder/DefaultReadingOrder.cs:236-245 | a cell that becomes ready when a cell is read is one of that cell's successors |
| ReadingOrder.TargetWaits | MangaParser/ReadingOrder/DefaultReadingOrder.cs:236-245 | a successor of an unread cell is not ready |
| ReadingOrder.PushStep | MangaParser/ReadingOrder/DefaultReadingOrder.cs:236-245 | one turn of the push loop keeps the stack free of repeats and of read cells, and stacks every ready successor seen so far |
| ReadingOrder.PushEnabled | MangaParser/ReadingOrder/DefaultReadingOrder.cs:236-245 | after a cell is read, the stack holds every unread ready cell, each once |
| ReadingOrder.InitialStackOk | MangaParser/ReadingOrder/DefaultReadingOrder.cs:216 | the initial stack holds each cell without predecessors once |
| ReadingOrder.InitialStackComplete | MangaParser/ReadingOrder/DefaultReadingOrder.cs:216 | every ready cell is on the initial stack |
| ReadingOrder.PopStep | MangaParser/ReadingOrder/DefaultReadingOrder.cs:222-225 | the popped cell is unread and ready, and the rest of the stack stays sound |
| ReadingOrder.AppendReady | MangaParser/ReadingOrder/DefaultReadingOrder.cs:233-234 | yielding an unread cell keeps the order free of repeats, and a ready cell keeps every cell after its predecessors |
| ReadingOrder.Visit | MangaParser/ReadingOrder/DefaultReadingOrder.cs:233-245 | yielding a cell appends it to the order and restores the loop's bookkeeping |
| ReadingOrder.ReadTop | MangaParser/ReadingOrder/DefaultReadingOrder.cs:222-245 | a turn that pops the stack yields the stack's top |
| ReadingOrder.ReadFallback | MangaParser/ReadingOrder/DefaultReadingOrder.cs:226-245 | a turn with an empty stack yields one more cell and only happens on a cyclic graph |
| ReadingOrder.ReadComplete | MangaParser/ReadingOrder/DefaultReadingOrder.cs:219 | once every cell is read, the order lists every cell exactly once, topologically when the graph is acyclic |
| ReadingOrder.ReadGraph | MangaParser/ReadingOrder/DefaultReadingOrder.cs:213-247 | the traversal ends and yields every cell exactly once; on an acyclic graph each cell comes after its predecessors, and the first cell yielded is the topmost cell without predecessors |
| ReadingOrder.GetReadingOrder | MangaParser/ReadingOrder/DefaultReadingOrder.cs:254-260 | the cells come back as a permutation of the input, in a topological order of the simplified graph when it is acyclic |
| Merging.NewViewer | MangaParser/Views/MergingPageViewer.cs:21-27 | a new viewer starts with the identity transformation and the size limits as given |
| Merging.TransformSize | MangaParser/Views/MergingPageViewer.cs:125-132 | the transformed limits are never negative |
| Merging.TransformSizeUnderDirection | MangaParser/Views/MergingPageViewer.cs:125-132 | under the two vertical reading directions the limits keep their place, under the two horizontal ones width and height trade places, both as absolute values |
| Merging.SetTransformation | MangaParser/Views/MergingPageViewer.cs:134-140 | setting the transformation recomputes the transformed limits from the stored limits, whatever the previous transformation was |
| Merging.SetTransformationLastWins | MangaParser/Views/MergingPageViewer.cs:134-140 | setting a transformation twice is setting the second one |
| Merging.CellsOverlap | MangaParser/Views/CellsView.cs:20-26 | for positive areas, two cells overlap exactly when the shared area is at least half of one of them; a zero area divides by zero |
| Merging.MaxRatioAtLeastHalf | MangaParser/Views/CellsView.cs:24-25 | for positive areas, the larger of the two ratios reaches one half exactly when twice the shared area reaches one of the areas |
| Merging.RatioAtLeastHalf | MangaParser/Views/CellsView.cs:24-25 | a ratio with a positive denominator reaches one half exactly when twice the numerator reaches the denominator |
| Merging.CellsOverlapProperties | MangaParser/Views/CellsView.cs:20-26 | the overlap test is symmetric, false for cells that do not intersect and true for a cell inside another |
| Merging.StripOverlapProperties | MangaParser/Views/StripPageViewer.cs:24-28 | the strip test is symmetric, false without shared rows, and for non-negative heights holds exactly when twice the shared rows exceed one of the heights |
| Merging.StripOverlap | MangaParser/Views/StripPageViewer.cs:24-28 | `StripPageViewer.Overlap`; StripOverlapProperties states it as an integer test on the shared rows |
| Merging.OverlapOf | MangaParser/Views/MergingPageViewer.cs:34 | the overlap test of a strip viewer never fails; a cells viewer uses the area test |
| Merging.Scan | MangaParser/Views/MergingPageViewer.cs:44-65 | the group only grows, to a union that fits the limits unless it is still the reference cell alone; every cell absorbed is inside it; earlier flags are kept; positive cells never make it fail |
| Merging.Pass | MangaParser/Views/MergingPageViewer.cs:76-87 | a pass yields no more groups than cells, each group's rectangle is a cell or fits the limits, and every unabsorbed cell is inside some group |
| Merging.PassCovers | MangaParser/Views/MergingPageViewer.cs:76-87 | a cell absorbed into the group of this turn, or covered by a later group, is covered by the pass |
| Merging.NoneMerged | MangaParser/Views/MergingPageViewer.cs:78 | the flags start all false |
| Merging.PassWithoutOverlap | MangaParser/Views/MergingPageViewer.cs:76-87 | when no two cells overlap, a pass returns the cells unchanged |
| Merging.ScanWithoutOverlap | MangaParser/Views/MergingPageViewer.cs:44-65 | when no later cell overlaps the reference, the group stays the reference cell and no flag is set |
| Merging.Singletons | MangaParser/Views/MergingPageViewer.cs:101-106 | each rectangle starts as its own group listing only itself |
| Merging.Iterate | MangaParser/Views/MergingPageViewer.cs:108-113 | the passes stop with no more groups than cells, and never fail on cells of positive size |
| Merging.IterateFromCells | MangaParser/Views/MergingPageViewer.cs:108-113 | each rectangle at the fixpoint is an input rectangle or fits the limits |
| Merging.IterateCovers | MangaParser/Views/MergingPageViewer.cs:108-113 | every input rectangle is inside some rectangle at the fixpoint |
| Merging.MergeCellsIterative | MangaParser/Views/MergingPageViewer.cs:96-116 | no more groups than cells, and no failure on cells of positive size or in a strip viewer |
| Merging.MergeCellsIterativeMeaning | MangaParser/Views/MergingPageViewer.cs:96-116 | every group is an input rectangle or fits the limits, and every input rectangle is inside some group |
| Merging.ScanParts | MangaParser/Views/MergingPageViewer.cs:44-65 | the parts gathered by one group are input rectangles |
| Merging.PassParts | MangaParser/Views/MergingPageViewer.cs:76-87 | every part of every group of a pass is an input rectangle |
| Merging.IterateParts | MangaParser/Views/MergingPageViewer.cs:108-113 | every part at the fixpoint is an input rectangle |
| Merging.MergeCellsIterativeParts | MangaParser/Views/MergingPageViewer.cs:96-116 | the parts of the groups are input rectangles |
| Merging.PassHasParts | MangaParser/Views/MergingPageViewer.cs:76-87 | a pass keeps every group's part list non-empty |
| Merging.IterateHasParts | MangaParser/Views/MergingPageViewer.cs:108-113 | every group at the fixpoint has parts |
| Merging.MergeCellsIterativeHasParts | MangaParser/Views/MergingPageViewer.cs:96-116 | every group lists at least one part |
| Merging.ComputeView | MangaParser/Views/MergingPageViewer.cs:118-123 | no more views than boxes, and none for no boxes |
| Merging.Rects | MangaParser/Views/MergingPageViewer.cs:122 | the views are the groups' rectangles, in order |
| Merging.ViewOfGroups | MangaParser/Views/MergingPageViewer.cs:118-123 | the views are the rectangles of the merged groups, in order |
| Merging.SingleGroupStable | MangaParser/Views/MergingPageViewer.cs:108-113 | a single group is already a fixpoint |
| Merging.PairMerged | MangaParser/Views/MergingPageViewer.cs:52-60 | two overlapping cells whose union fits become one group, their union |
| Merging.PairOversized | MangaParser/Views/MergingPageViewer.cs:54-61 | two overlapping cells whose union is too large stay apart, and the second is still listed among the first group's parts |
| Merging.PairApart | MangaParser/Views/MergingPageViewer.cs:52 | two cells that do not overlap stay apart, in order |
| Merging.OverlappingPair | MangaParserTest/ViewsTests.cs:37-43 | the two test cells overlap, and their union is 150 wide and 100 high |
| Merging.TouchingPair | MangaParserTest/ViewsTests.cs:65-66 | two cells that only share an edge do not overlap |
| Merging.SingleCellView | MangaParserTest/ViewsTests.cs:13-23 | a single cell is its own view |
| Merging.EmptyView | MangaParserTest/ViewsTests.cs:26-32 | no cells give no views |
| Merging.MergeCellsTest | MangaParserTest/ViewsTests.cs:35-46 | with limit 250 the overlapping pair becomes its union |
| Merging.MergeCellsWithLimitTest | MangaParserTest/ViewsTests.cs:49-60 | with limit 100 the overlapping pair stays apart, in order |
| Merging.NoOverlapNoMergeTest | MangaParserTest/ViewsTests.cs:63-74 | edge-touching cells stay apart |
| Merging.PairMergedInto | MangaParser/Views/MergingPageViewer.cs:52-60 | two overlapping cells whose union fits are viewed as that union |
| Strip.NewStrip | MangaParser/Views/StripPageViewer.cs:36-40 | the strip viewer merges rows without a size cap and keeps its limits only for splitting |
| Strip.HullGrows | MangaParser/Views/StripPageViewer.cs:52-65 | adding a cell to a run never makes its union narrower |
| Strip.Hull | MangaParser/Views/StripPageViewer.cs:52-65 | the union folded over a run; HullContains and HullEdges state that it contains every cell and spans its extreme edges |
| Strip.HullContains | MangaParser/Views/StripPageViewer.cs:52-65 | the union of a run contains each of its cells |
| Strip.RunExtremes | MangaParser/Views/StripPageViewer.cs:109-115 | the least left edge and greatest right edge of a run bound every cell and are attained |
| Strip.HullEdges | MangaParser/Views/StripPageViewer.cs:109-115 | the union of a run spans from its least left edge to its greatest right edge |
| Strip.RunSnoc | MangaParser/Views/StripPageViewer.cs:109-115 | extending a run updates its extreme edges by one comparison each |
| Strip.Window | MangaParser/Views/StripPageViewer.cs:111-112 | skipping and taking cells gives the slice when it lies inside the list, and nothing exactly when the count is not positive or the start is past the end |
| Strip.GetWidth | MangaParser/Views/StripPageViewer.cs:109-115 | the width of a run is that of the union of its cells; an empty run throws |
| Strip.GreaterOrder | MangaParser/Views/StripPageViewer.cs:146 | the double comparison is irreflexive and transitive, total except for NaN |
| Strip.Balance | MangaParser/Views/StripPageViewer.cs:121-124 | for positive widths the balance lies in [0, 1) and is 0 exactly for equal widths; a zero maximum gives NaN exactly when the minimum is zero too |
| Strip.BalanceSymmetric | MangaParser/Views/StripPageViewer.cs:121-124 | the balance does not depend on the order of the widths |
| Strip.BalanceValue | MangaParser/Views/StripPageViewer.cs:121-124 | for positive widths the balance is one minus the smaller width over the larger |
| Strip.RatioBelowOne | MangaParser/Views/StripPageViewer.cs:123 | a ratio of positive numbers, the smaller over the larger, lies in (0, 1] and is 1 exactly for equal numbers |
| Strip.BalanceOrder | MangaParser/Views/StripPageViewer.cs:101 | for positive widths, one pair is less balanced than another exactly when its min/max ratio is smaller, compared by cross-multiplication |
| Strip.CrossCompare | MangaParser/Views/StripPageViewer.cs:101 | two ratios with positive denominators compare as their cross products |
| Strip.ConsValid | MangaParser/Views/StripPageViewer.cs:48-68 | putting a larger break in front of valid breaks keeps them strictly increasing up to the count |
| Strip.ConsGroup | MangaParser/Views/StripPageViewer.cs:52-65 | a break taken when the next cell would make the group too wide keeps every group within the limit and every break forced |
| Strip.ConsFits | MangaParser/Views/StripPageViewer.cs:52-65 | a first group narrower than the limit, or of one cell, keeps every group within the limit |
| Strip.ConsMaximal | MangaParser/Views/StripPageViewer.cs:56-63 | a break placed where the union reaches the limit keeps every break forced |
| Strip.ConsMaximalAt | MangaParser/Views/StripPageViewer.cs:56-63 | each later break stays forced after a new first break |
| Strip.Breaks | MangaParser/Views/StripPageViewer.cs:52-67 | the breaks increase strictly and end at the count, every group of two or more cells is narrower than the limit, and each break is forced by the next cell |
| Strip.MaxViews | MangaParser/Views/StripPageViewer.cs:48-68 | an empty list throws; otherwise the greedy breaks are strictly increasing, end at the count, keep every group of two or more cells narrower than the limit, and break only where the next cell would not fit |
| Strip.CanForward | MangaParser/Views/StripPageViewer.cs:80-104 | a boundary may move back exactly when the first group has two or more cells, is wider than the second, the grown second group stays under the limit, and the balance does not get worse; the balance reported is that before the move |
| Strip.PairStep | MangaParser/Views/StripPageViewer.cs:142-152 | the scan tests every pair of consecutive groups with the boundaries as they stand |
| Strip.FindWorst | MangaParser/Views/StripPageViewer.cs:142-152 | the pair chosen is movable and strictly less balanced than the worst seen before, and no movable pair is less balanced still; none is chosen when none beats it |
| Strip.WorstPairForwardable | MangaParser/Views/StripPageViewer.cs:142-152 | the pair chosen can move, with its balance reported |
| Strip.WorstPairIsWorst | MangaParser/Views/StripPageViewer.cs:142-152 | no movable pair is less balanced than the one reported |
| Strip.SumDecrement | MangaParser/Views/StripPageViewer.cs:157 | moving one boundary back lowers the sum of the boundaries by one |
| Strip.MoveKeepsValid | MangaParser/Views/StripPageViewer.cs:157 | moving back a boundary whose group has two or more cells keeps the boundaries strictly increasing |
| Strip.MoveKeepsFit | MangaParser/Views/StripPageViewer.cs:157 | moving a boundary back keeps every group within the limit |
| Strip.MoveFitAt | MangaParser/Views/StripPageViewer.cs:157 | after the move, each group of two or more cells is narrower than the limit |
| Strip.WorstPair | MangaParser/Views/StripPageViewer.cs:142-152 | the pair chosen is movable and its balance is reported, or none is chosen |
| Strip.MoveAt | MangaParser/Views/StripPageViewer.cs:154-158 | moving the chosen boundary keeps the boundaries valid and the groups within the limit, and lowers the boundary sum, so the balancer ends |
| Strip.ForwardableFacts | MangaParser/Views/StripPageViewer.cs:80-104 | a movable pair's first group has two or more cells and the grown second group is under the limit |
| Strip.BalanceViews | MangaParser/Views/StripPageViewer.cs:131-162 | the balancer ends with as many boundaries, still strictly increasing up to the count, none later than before, and every group that fitted still fits |
| Strip.GrowHull | MangaParser/Views/StripPageViewer.cs:195-204 | the inner union loop builds the union of the group's cells |
| Strip.Pieces | MangaParser/Views/StripPageViewer.cs:195-205 | one view per boundary, each the union of its group's cells, in order |
| Strip.PiecesFit | MangaParser/Views/StripPageViewer.cs:195-205 | each view from greedy breaks is narrower than the limit or a single cell |
| Strip.GroupOf | MangaParser/Views/StripPageViewer.cs:195-205 | each cell belongs to the first group whose boundary lies past it |
| Strip.PiecesCover | MangaParser/Views/StripPageViewer.cs:195-205 | every cell lies inside one of the views |
| Strip.SplitStrip | MangaParser/Views/StripPageViewer.cs:169-206 | a strip narrower than the limit is emitted as is; a wider one gives between one view and as many views as it has parts, each within the limit or a part; it throws exactly when it has no parts or its parts cannot be merged |
| Strip.InnerCells | MangaParser/Views/StripPageViewer.cs:190-192 | re-merging a strip's parts gives at least one and at most as many cells, each a part or within the limit |
| Strip.ValidLower | MangaParser/Views/StripPageViewer.cs:48-68 | the k-th break is past the first k cells |
| Strip.ValidCount | MangaParser/Views/StripPageViewer.cs:48-68 | there are no more breaks than cells |
| Strip.SplitStripCovers | MangaParser/Views/StripPageViewer.cs:190-205 | every part of a strip that is split lies inside one of its views |
| Strip.SplitAll | MangaParser/Views/StripPageViewer.cs:169-207 | at least one view per strip, each within the limit or a part of a strip; it succeeds exactly when every strip splits |
| Strip.SplitAllCons | MangaParser/Views/StripPageViewer.cs:169-207 | the views of the first strip and of the rest together stay within the limit or are parts |
| Strip.ComputeView | MangaParser/Views/StripPageViewer.cs:164-208 | every view is within the limit or one of the boxes, and no boxes give no views |
| Strip.ComputeViewOk | MangaParser/Views/StripPageViewer.cs:164-208 | boxes of positive size never make the view fail |
| Strip.SplitAllNarrow | MangaParser/Views/StripPageViewer.cs:171-174 | strips all narrower than the limit are emitted unchanged, in order |
| Strip.NarrowStripsUnsplit | MangaParser/Views/StripPageViewer.cs:164-174 | when every merged strip is narrower than the limit, the views are the merged rows |
| Strip.StripMerged | MangaParserTest/ViewsTests.cs:76-95 | merged by the strip rule with no size limit, the five test cells become two views, the union of the three upper cells and the union of the two lower ones |
| Strip.StripMergeTest | MangaParserTest/ViewsTests.cs:76-95 | the strip viewer of width 2000 shows the five test cells as two views, each the union of one row's cells |
| Views.Boxes | MangaParser/Views/MergingPageViewer.cs:120 | one bounding box per cell, in order |
| Views.UnionFrom | MangaParser/Views/FullPageViewer.cs:17-19 | the aggregated union contains the seed and every box folded in |
| Views.UnionFromLeast | MangaParser/Views/FullPageViewer.cs:17-19 | any rectangle containing the seed and the boxes contains the aggregated union |
| Views.FullPageView | MangaParser/Views/FullPageViewer.cs:14-20 | exactly one rectangle, containing every box; no boxes throw at `First` |
| Views.FullPageViewLeast | MangaParser/Views/FullPageViewer.cs:14-20 | the rectangle is the least one containing every box |
| Views.FullPageViewSingle | MangaParser/Views/FullPageViewer.cs:14-20 | a single box is its own view |
| Views.SetViewTransformation | MangaParser/Views/IPageViewer.cs:17 | setting the transformation of a strip or cells viewer stores it and keeps the viewer's kind and limits |
| Views.ViewerComputeView | MangaParser/Views/IPageViewer.cs:22 | strip and cells viewers never fail on boxes of positive size and give no views for no boxes; the full-page viewer fails exactly on no boxes |
| Views.NewPage | MangaParser/Page.cs:65-85 | a full-page extraction gives the one page rectangle, built by the rectangle factory as written (its centre off the page) or, with `fixed`, by the corrected one; otherwise the cells are the extracted polygons in reading order, each once; the transformed cells are the cells under the direction matrix, in the same order |
| Views.PageView | MangaParser/MangaPageUtil.cs:15-21 | the viewer gets the direction matrix before computing on the transformed cells, and yields one output per view it computes |
| Views.PageViewRoundTrip | MangaParser/MangaPageUtil.cs:19-20 | mapping an output back through the direction matrix gives the viewer's rectangle, for non-negative sizes |
| Views.PageViewDownRight | MangaParser/MangaPageUtil.cs:17-20 | reading down and right, the outputs are the viewer's rectangles unchanged |
| DirectoryManager.PrefixFrom | MangaReader/MangaDirectoryManager.cs:24 | the loop stops at the first differing position or at the shorter length, with the prefixes equal up to there |
| DirectoryManager.CommonPrefix | MangaReader/MangaDirectoryManager.cs:19-27 | a length within both names, over which they agree, stopped by the end of a name or a difference |
| DirectoryManager.CommonPrefixLongest | MangaReader/MangaDirectoryManager.cs:19-27 | no longer common prefix exists |
| DirectoryManager.CommonPrefixSymmetric | MangaReader/MangaDirectoryManager.cs:19-27 | the length does not depend on the order of the names |
| DirectoryManager.CommonPrefixSelf | MangaReader/MangaDirectoryManager.cs:19-27 | a name shares all of itself with itself |
| DirectoryManager.DigitsFrom | MangaReader/MangaDirectoryManager.cs:33 | the loop throws exactly when the rest of the string is all digits, and otherwise stops at the first non-digit |
| DirectoryManager.NumericLength | MangaReader/MangaDirectoryManager.cs:29-36 | the number of leading digits, followed by a non-digit; a string made only of digits, the empty one included, reads past its end and throws |
| DirectoryManager.CompareFiles | MangaReader/MangaDirectoryManager.cs:38-61 | equal names compare as 0 |
| DirectoryManager.LeadingNumber | MangaReader/MangaDirectoryManager.cs:50-57 | the parsed leading digits of a remainder; CompareFilesMeaning states how the comparison uses them |
| DirectoryManager.CompareFilesMeaning | MangaReader/MangaDirectoryManager.cs:38-61 | for different names, the comparison throws exactly when a remainder past the common prefix is all digits; otherwise it is the difference of the leading numbers when both have one, and the culture order of the remainders when not |
| DirectoryManager.CompareFilesAntisymmetric | MangaReader/MangaDirectoryManager.cs:38-61 | with an antisymmetric culture order, swapping the names negates the result, and one order throws exactly when the other does |
| DirectoryManager.CompareFilesPrefixFails | MangaReader/MangaDirectoryManager.cs:46-52 | a name that is a proper prefix of another leaves an empty remainder, so the comparison throws |
| DirectoryManager.NaturalOrderExample | MangaReader/MangaDirectoryManager.cs:54-58 | page 2 sorts before page 10: the comparison of p2.jpg with p10.jpg is -8 |
| DirectoryManager.GetPageIndex | MangaReader/MangaDirectoryManager.cs:77-80 | -1 exactly when the path is not listed, otherwise its first position |
| DirectoryManager.GetPagePath | MangaReader/MangaDirectoryManager.cs:85-88 | the path of a listed page; a number out of range throws |
| DirectoryManager.PageLookupsRoundTrip | MangaReader/MangaDirectoryManager.cs:77-88 | a listed path is found at a page whose path it is, and in a list without repeats each page number is found back from its path |
| RecentMangas.FindState | MangaReader/RecentMangas.cs:38-45 | -1 exactly when no entry has the key, otherwise the first index whose entry has it |
| RecentMangas.RemoveStateAlwaysThrows | MangaReader/RecentMangas.cs:47-59 | as written, every removal other than of index -1 throws out of range before the list or the pinned count changes |
| RecentMangas.RemoveState | MangaReader/RecentMangas.cs:47-59 | with `RemoveAt(index)`, exactly the entry at the index goes, the others keep their order, pinned entries stay first and counted, keys stay distinct, the unpinned count does not grow; only an index out of range throws |
| RecentMangas.RemoveStateAsWritten | MangaReader/RecentMangas.cs:47-59 | as written, the list is never changed and every index other than -1 throws |
| RecentMangas.TrimRecents | MangaReader/RecentMangas.cs:61-68 | nothing happens within ten unpinned entries; beyond, as written it throws with the list unchanged, and with the intended removal the last entry goes and the pinned count follows it |
| RecentMangas.AddPinned | MangaReader/RecentMangas.cs:88-93 | the entry goes in front and one more entry is pinned |
| RecentMangas.Insert | MangaReader/RecentMangas.cs:98 | the entry lands at the index, the entries before keep their places and those after move up by one |
| RecentMangas.AddUnpinned | MangaReader/RecentMangas.cs:95-100 | the entry lands right after the pinned ones, the pinned entries untouched; it throws as written exactly when ten entries are already unpinned, and for a pinned count outside the list; the list grows by one unless the trim removed the last entry |
| RecentMangas.AddRecent | MangaReader/RecentMangas.cs:102-106 | a pinned state goes in front and is counted; whenever nothing throws the state is listed |
| RecentMangas.UpdateRecentState | MangaReader/RecentMangas.cs:108-124 | a manga not listed is added; one listed with the same pinned flag is replaced in place, the length, the pinned count and every other entry unchanged |
| RecentMangas.InsertUnpinnedLayout | MangaReader/RecentMangas.cs:95-100 | an unpinned entry inserted right after the pinned ones keeps the pinned entries first |
| RecentMangas.InsertKeys | MangaReader/RecentMangas.cs:95-100 | inserting a new key keeps the keys distinct and adds exactly that key |
| RecentMangas.AddRecentValid | MangaReader/RecentMangas.cs:102-106 | with the intended removal, adding a new manga never throws, keeps the list well formed with at most ten unpinned entries, and lists it |
| RecentMangas.UpdateRecentStateValid | MangaReader/RecentMangas.cs:108-124 | with the intended removal, every update keeps the list well formed and lists the new state, without throwing |
| RecentMangas.RemovedKey | MangaReader/RecentMangas.cs:47-59 | with the intended removal, the removed manga is no longer listed and the list stays well formed |
| RecentMangas.AddRecentPage | MangaReader/RecentMangas.cs:126-129 | the page being read is recorded as an unpinned state; ReadingPinnedThrows states what happens for a pinned one |
| RecentMangas.ReadingPinnedThrows | MangaReader/RecentMangas.cs:108-129 | as written, reading again a manga listed as pinned throws and leaves the list as it was |
| RecentMangas.PinChangeThrows | MangaReader/RecentMangas.cs:120-123 | as written, pinning or unpinning a listed manga throws and changes nothing |
| RecentMangas.EleventhUnpinnedOverflows | MangaReader/RecentMangas.cs:61-68 | as written, the unpinned entry that makes eleven is inserted and the trim then throws, leaving eleven unpinned entries |
| RecentMangas.StatePropertyChanged | MangaReader/RecentMangas.cs:80-86 | any notification other than "Pinned" changes nothing; PinnedNotificationNoChange states the "Pinned" case |
| RecentMangas.PinnedNotificationNoChange | MangaReader/RecentMangas.cs:80-86 | a notification raised by a listed entry finds that very entry with an equal flag, so nothing changes |
| RecentMangas.CountPinned | MangaReader/RecentMangas.cs:168 | the pinned count is at most the length |
| RecentMangas.FixupDeserialized | MangaReader/RecentMangas.cs:166-174 | the entries are kept in their order and the pinned count is within range |
| RecentMangas.CountPinnedLayout | MangaReader/RecentMangas.cs:168 | when the pinned entries are the first p, exactly p are counted |
| RecentMangas.FixupRestores | MangaReader/RecentMangas.cs:166-174 | loading a list saved with the pinned entries first restores its pinned count |
| WpfUtil.Center | MangaReader/WPFUtil.cs:25-30 | the centre is within half a unit of the middle on each axis, and inside a rectangle of non-negative size |
| WpfUtil.SqDist | MangaReader/WPFUtil.cs:39-42 | the squared distance is never negative and is zero exactly for equal points |
| WpfUtil.SqDistSymmetric | MangaReader/WPFUtil.cs:39-42 | the squared distance does not depend on the order of the points |
| WpfUtil.SqDistTranslate | MangaReader/WPFUtil.cs:39-42 | moving both points by the same offset keeps their squared distance |
| WpfUtil.ToVisibility | MangaReader/WPFUtil.cs:204-207 | visible exactly when the flag is set, hidden otherwise |
| ViewHandlers.ParsedRaise | MangaReader/ParsedViewHandler.cs:29-34 | the event carries the current view of the cached list and changes nothing; with no list it dereferences null, with the index out of range it throws |
| ViewHandlers.ParsedNext | MangaReader/ParsedViewHandler.cs:41-59 | at the last view, moves to the first view of the next page and raises `NextPageDisplay`, or does nothing on the last page; otherwise raises the next view |
| ViewHandlers.ParsedPrevious | MangaReader/ParsedViewHandler.cs:61-79 | at the first view, moves to the last view of the previous page and raises `PreviousPageDisplay`, or does nothing on the first page; otherwise raises the previous view |
| ViewHandlers.Closest | MangaReader/ParsedViewHandler.cs:89-92 | the view whose centre is nearest the old centre, the first of those at that distance |
| ViewHandlers.ParsedRefresh | MangaReader/ParsedViewHandler.cs:81-100 | the page's views are reloaded; with an old view the nearest view is shown, and no views throw; without one the index becomes 0 only if nothing was shown |
| ViewHandlers.ParsedStart | MangaReader/ParsedViewHandler.cs:24-27 | a new handler, once refreshed, shows a view of its page, the first one when there is no old view |
| ViewHandlers.ParsedStaysValid | MangaReader/ParsedViewHandler.cs:29-100 | from a valid state every step raises the current view of the current page, never throwing, on pages that all have views |
| ViewHandlers.ParsedNextPreviousRoundTrip | MangaReader/ParsedViewHandler.cs:41-79 | a step forward that raised something is undone by a step back, and a step back by a step forward |
| ViewHandlers.ParsedNextAtEnd | MangaReader/ParsedViewHandler.cs:41-52 | a step forward raises nothing exactly at the last view of the last page, and then nothing changes |
| ViewHandlers.ParsedRefreshKeepsView | MangaReader/ParsedViewHandler.cs:81-100 | refreshing with the view shown keeps it shown, when no earlier view has the same centre |
| ViewHandlers.Settings | MangaReader/FreeviewHandler.cs:76-81 | the page's size and the manga's view height are loaded, the other fields kept |
| ViewHandlers.FreeNext | MangaReader/FreeviewHandler.cs:38-55 | at the bottom, moves to the top of the next page and raises `NextPageDisplay`, or does nothing on the last page; every event carries the band shown |
| ViewHandlers.FreePrevious | MangaReader/FreeviewHandler.cs:57-74 | at the top, moves to the bottom of the previous page and raises `PreviousPageDisplay`, or does nothing on the first page; every event carries the band shown |
| ViewHandlers.FreeScrollBounds | MangaReader/FreeviewHandler.cs:50-73 | a scroll inside the page stays on the page, and moves exactly when the view is at least four high |
| ViewHandlers.FreeStaysOnPage | MangaReader/FreeviewHandler.cs:38-74 | with pages at least as high as the view, the band stays on its page after any step |
| ViewHandlers.FreeNextReachesBottom | MangaReader/FreeviewHandler.cs:50-54 | repeated steps forward reach the bottom of the page within as many steps as there are rows left |
| ViewHandlers.RefreshTopAsWritten | MangaReader/FreeviewHandler.cs:89-90 | the top `Refresh` computes as written; RefreshTopMovesView shows it moves the band shown |
| ViewHandlers.RefreshTopMovesView | MangaReader/FreeviewHandler.cs:89-90 | as written, refreshing the 200-high band at 400 of a 200-high view moves it to 150 |
| ViewHandlers.RefreshTop | MangaReader/FreeviewHandler.cs:83-94 | with the intended formula the new band is centred on the old view's centre, up to rounding |
| ViewHandlers.RefreshTopKeepsView | MangaReader/FreeviewHandler.cs:83-94 | with the intended formula, refreshing with the band shown keeps it |
| ViewHandlers.FreeRefresh | MangaReader/FreeviewHandler.cs:83-94 | the page and view height are read again and `Display` raised with the new band; without an old view the band keeps its place; with one, as written the top is (old centre − shown height) / 2 truncated, and with the intended formula the band is centred on the old view's centre up to rounding, so refreshing with the band shown keeps it |
| ViewHandlers.NewFreeview | MangaReader/FreeviewHandler.cs:30-36 | a new handler shows the top of its page |
| ViewHandlers.FullNext | MangaReader/FullPageViewHandler.cs:33-40 | moves to the next page and raises `NextPageDisplay` with the whole page exactly when there is one; otherwise nothing |
| ViewHandlers.FullPrevious | MangaReader/FullPageViewHandler.cs:42-49 | moves back and raises `PreviousPageDisplay` with the whole page exactly when there is a previous page; otherwise nothing |
| ViewHandlers.FullRefresh | MangaReader/FullPageViewHandler.cs:51-54 | the page is kept and the whole page is raised |
| ViewHandlers.FullRoundTrip | MangaReader/FullPageViewHandler.cs:33-49 | a step forward that moved is undone by a step back, and the reverse |
| PageViewers.NewMangaPageViewer | MangaReader/MangaPageViewer.cs:94-98 | no viewer yet, the identity transformation, and strip mode |
| PageViewers.Build | MangaReader/MangaPageViewer.cs:38-52 | strip mode builds a strip viewer and cell mode a cells viewer with the current limits, free mode the full-page viewer, and the full-page mode nothing |
| PageViewers.GetViewer | MangaReader/MangaPageViewer.cs:34-58 | the cached viewer when there is one, else a new viewer for the mode with the current transformation, then kept |
| PageViewers.SetViewMode | MangaReader/MangaPageViewer.cs:62-66 | the mode changes and the cached viewer is dropped |
| PageViewers.SetWidth | MangaReader/MangaPageViewer.cs:73-77 | the width changes and the cached viewer is dropped |
| PageViewers.SetHeight | MangaReader/MangaPageViewer.cs:84-88 | the height changes and the cached viewer is dropped |
| PageViewers.SetTransformation | MangaReader/MangaPageViewer.cs:113-118 | the transformation is kept and passed on to a cached viewer; nothing else changes |
| PageViewers.ConfigurationChanged | MangaReader/MangaPageViewer.cs:100-106 | only a change of view mode is followed |
| PageViewers.ComputeView | MangaReader/MangaPageViewer.cs:108-111 | the full-page mode dereferences null; any other mode computes what a freshly built viewer computes |
| PageViewers.SetViewTransformationTwice | MangaReader/MangaPageViewer.cs:113-118 | setting the transformation twice is setting the second one |
| PageViewers.CoherentKept | MangaReader/MangaPageViewer.cs:24-118 | every operation keeps the cached viewer equal to the one the settings call for |
| PageViewers.CacheTransparent | MangaReader/MangaPageViewer.cs:34-111 | caching changes no result: a call computes what a fresh viewer would, and so does the next |
| PageViewers.TransformationReachesViewer | MangaReader/MangaPageViewer.cs:54-118 | in strip or cell mode the viewer computes under the last transformation set, whether built before or after |

## Left out

- Bitmap handling is left out because it is pixel I/O and foreign code. This covers `LockBits`, the unsafe pixel loops, grayscale and threshold filters, `To32bpp`, `IsInvertedColor` and `aggregateImageIntensity`. The mask is a parameter, and so is the page's summed intensity.
- The AForge blob counter and `GetBlobs`/`GetPolygons` are library code, left out. Their polygons are inputs to the filters.
- `Blob.convexInclude(Blob)` is private and never called, so it is left out.
- `AsParallel()` is modelled as keeping the order. PLINQ without `AsOrdered` does not promise that.
- Floating point is not modelled. Fixed ratios (0.05, 0.95, 0.1, 0.5, 0.2, 0.4, 0.6) become integer cross-multiplications or `real`. Decimal division by zero in the cells overlap test is an `Err`. The strip balance keeps NaN and infinity for a zero width.
- Matrices are only the four integer reading-direction matrices and the identity, not general float transforms.
- Tie orders the source leaves open are modelled one way, and properties hold for that choice:
  - dictionary enumeration is in ascending cell index;
  - the unstable `List.Sort` of edges is modelled as a stable sort.
- `CompareFiles` does not model the culture-sensitive parts:
  - `StringComparer.CurrentCulture` is a comparison passed in as a parameter;
  - `Char.IsDigit` is limited to ASCII digits;
  - `int.Parse` does not overflow.
- Integers are unbounded except for two `int` products of `IsFullPage`, wrapped to 32 bits as in the source: the page area `page.Width * page.Height` and `area * 255` in `isWhite`/`isBlack`.
- The `MangaDirectoryManager` constructor lists a directory, so it is left out. The page list is a parameter.
- File and persistence code is left out: `RecentMangas.Save`/`Load`/`ConfigurationPath`, `MangaState` paths and `CoverPage`. A recent entry's key is an opaque string.
- Event subscriptions are not modelled:
  - every handler event is taken as subscribed, so the `evt == null` early returns are not modelled;
  - `PropertyChanged` listeners and `bindState`/`unbindState` are left out.
- `MangaPage.ComputeReadingAsync`, the weak-reference caches of `MangaPage` and `Manga`, and `MainWindow` are concurrency, garbage-collector and UI code, left out. A page is its number, its list of views, its width and its height.
- `MangaConfiguration` is a property bag, left out. The reader sees only its view mode and view height, as parameters.
- `FullPageViewer` declares no `ViewTransformation`, so setting one on it changes nothing in the model.
- Merging.Iterate: the fixpoint loop of `MergeCellsIterative` stops when a pass keeps the count. The model stops on the same test. Termination holds because the count never grows.
- Merging.ComputeView, Strip.ComputeView: the lazy `yield` sequences are returned whole, so a failure late in the sequence fails the whole result.
- Strip.ComputeView states an upper bound on each view's width. It does not state that the cells of one strip lie side by side.
- `MangaParserTest/RectanglePoly.cs` is a test helper with a zig-zag point order, left out. The view tests use only its bounding boxes.
- The data-driven tests `SegmentationTests.cs` and `CellsOrderingTest.cs` read image files, so they are left out. Of the bitmaps `CustomSegmenterTests.cs` draws in memory, the blank page and a scaled-down outline square are traced (`IdentifyBlobsBackground`, `OutlineSquareOneBlob`); the 100 × 100 outline, the spirals and the threshold gradient are not.

## Findings

| source | as written | input that shows it | evidently intended | confidence | as-written member | corrected member |
|---|---|---|---|---|---|---|
| MangaParser/Segmentation/MyAdapter/Graphics.cs:126-170 | renaming an absorbed blob updates `lastBlobs[j..]` only. Owners already placed in `result` keep the absorbed blob, and `blobs.UnionWith(result)` registers it again | the 5 × 5 mask with rows `.###.`, `#...#`, `#.#.#`, `#..#.`, `.##..`: after four rows two registered blobs share a region, and the fifth row throws in `MergeWith` | every reference to the absorbed blob is renamed, so registered blobs stay disjoint and the scan never throws | high, not executed | RasterCounterexample.AsWrittenFails | RasterDisjoint.IdentifyBlobsCorrected |
| MangaParser/Segmentation/AFAdapter/AFThresholdBlobSegmentation.cs:194-202 | `area * 255` is computed in 32-bit `int` | a 3000 × 3000 page of mean intensity 127.5 covered by one cell: the product wraps negative, `isWhite` holds and the page counts as a full page | the thresholds are compared without overflow | high, not executed | Segmentation.FullPageWrapCounterexample | Segmentation.IsFullPageIntegers |
| MangaReader/RecentMangas.cs:52 | `Recent.RemoveAt(Recent.Count)` | any removal of a listed entry: adding an eleventh unpinned manga throws in the trim, and so does `AddRecent(page, view)` for a manga listed as pinned, as in a list loaded from its file | `Recent.RemoveAt(index)` | high, not executed | RecentMangas.EleventhUnpinnedOverflows | RecentMangas.UpdateRecentStateValid |
| MangaParser/Geometry/Polygon.cs:95 | the centre's y is `p3 + p4 / 2`, using the width | `Rectangle(0, 0, 30, 10)` gets the centre (15, 35), below the rectangle. `Page` builds its full-page cell with this factory (Views.NewPage), so the cell of any page less than about twice as high as wide has its centre below the page (RectangleCentreBelow) | `p2 + p4 / 2` | high, not executed | Polygons.RectangleCentreOutside | Polygons.RectanglePolygon |
| MangaReader/FreeviewHandler.cs:89-90 | the new top is `(center.Y - oldheight) / 2` | an old view (0, 400, 800, 200) with a view height of 200 gives the top 150, not 400 | `center.Y - oldheight / 2`: the band stays centred on the old view, as `IViewHandler.Refresh` asks (MangaReader/ViewHandler.cs:67-74) | medium, not executed | ViewHandlers.RefreshTopMovesView | ViewHandlers.RefreshTopKeepsView |
