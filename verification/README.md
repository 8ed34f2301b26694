# librttopo: verified geometry algorithms

A Dafny model of the self-contained geometry algorithms of librttopo, with proofs of
what they promise. Everything is in real arithmetic; where the library takes a square
root of a distance, the model keeps the square, and comparisons are made on squares.

| module | models | file |
|---|---|---|
| `Convex`, `Planar`, `Spatial` | quadratic forms on the unit square, segments and polylines as point sets | facts the engines rest on |
| `Sorting` | the C library's `qsort` as it is used | src/measures.c, src/rtlinearreferencing.c |
| `Measures` | the planar distance engine: accumulator, brute force, sorted and pruned fast path | src/measures.c |
| `Measures3d` | the distance engine in space | src/measures3d.c |
| `PointArrays` | the growable point array | src/ptarray.c |
| `Tracing`, `OrdinateClip` | positions and stretches of a line, clipping a line to a range of one ordinate | src/rtlinearreferencing.c |
| `Approach` | closest point of approach of two trajectories | src/rtlinearreferencing.c |
| `Simplify` | iterative Douglas-Peucker with its own stack | src/ptarray.c |
| `Rings` | winding number, crossing number, box and reversal of rings | src/ptarray.c, src/rtalgorithm.c, src/g_box.c |
| `Geohash`, `Grid` | encoding, decoding, shared precision of a box, and the grid of the world they stand for | src/rtalgorithm.c |
| `Polyline` | the encoded polyline writer, with a reader to hold it against | src/rtout_encoded_polyline.c |
| `Iterator` | the lazy vertex iterator with its two stacks | src/rtiterator.c |
| `Bytes`, `Serialized`, `Serializer`, `Deserializer`, `Envelope` | the serialized form: layout, predicted size, writer, reader, header and box | src/g_serialized.c |
| `Readback` | which geometries come back from the bytes written for them | src/g_serialized.c |
| `Shortcuts` | emptiness, type and box straight from the bytes | src/g_serialized.c |
| `Cutting`, `Split` | the cut of a line at a point, and splitting at points | src/rtgeom_geos_split.c, src/ptarray.c |

Accumulators, point arrays, stacks, byte buffers and the collection of pieces are
updated in place, in classes and arrays, by the loops of the source. Each method is
proved against a definition that does not mention the loop: a polyline is the set of
its points, "no pair of points beats the record" is a statement over all of them, a
trajectory is a function of time, the vertices of a geometry are a flattening, and the
reader of the serialized form and of the encoded polyline is a separate function.
`dafny verify dfyconfig.toml` checks the project.

## Where the code does less than it seems to promise

Each of these is an exact condition or a concrete input in the model.

- In space, segment pairs with a determinant below 1e-9 that are not exactly parallel
  are treated as parallel, and the minimum can be missed (src/measures3d.c:943-954).
  `Measures3d.Exact` is the condition, `TestedIsMinimumIff` and `InexactMisses` show that
  it cannot be weakened, and `NearParallelMiss` gives two segments.
- `rtgeom_tcpa` starts from FLT_MAX as a square: when two trajectories are never nearer
  than that, the first common time is returned, which is the closest approach only when
  the distance is exactly that much there (src/rtlinearreferencing.c:1087; `Approach.Tcpa`,
  `FarLinesMiss`). `rtgeom_cpa_within` compares distances at a single common
  instant but squares otherwise, so a negative distance acts like its absolute value over
  a longer common range (src/rtlinearreferencing.c:1253, 1334, 1387).
- Clipping to a range of one value leaves, of a segment that crosses the value, a line of two
  equal points and not a point (src/rtlinearreferencing.c:691-712;
  `OrdinateClip.ClipToOrdinateRange`, `PartOf`).
- A minimum search over polylines compares segments, so with a line of one vertex the
  brute force leaves the accumulator alone while the fast path still finds the distance
  (src/measures.c:1159-1176; last clause of `Measures.DistPts.PtArrayPtArray`).
- Simplification drops repeated vertices on output, one for each neighbour of the
  selection that repeats the one before (`Simplify.SelectLoses`), so fewer than `minpts` can
  remain. When `minpts` asks for all vertices, all come out exactly when no two neighbours
  in the input are equal (`Simplify.SimplifyArray`, `RepeatedVertexLost`).
- A ring whose vertices all coincide has no boundary point
  (`Rings.CompareContainment`).
- An encoded polyline loses a first ordinate or a step of 2^30 or more, or below -2^30, the
  top bit falling out of the shift (`Polyline.ZigzagRoundTrip`, `RoundTrip`,
  `LongStepLost`). The test for a continuation character equal to 92 never succeeds, since those start at 95; it is modelled all the
  same.
- The iterator judges a polygon by its first ring and never skips an empty ring: at such a
  ring it stops for good (src/rtiterator.c:162-191; `Iterator.VisitsEverything`,
  `EmptyHoleStops`).
- Emptiness read from the bytes counts a polygon as empty only without rings, decoded
  emptiness also when its first ring has no vertex (`Shortcuts.EmptinessAgrees`,
  `HollowPolygon`).
- A multipoint of one empty point makes the box shortcut read ordinates that were not
  written, two to four by the dimensions (`Shortcuts.PeekGbox`, outcome `OutOfBounds`).
- A line is asked whether Z agrees with its vertices but not M, and of a point with more than
  one vertex the first is written although all are counted in the size
  (`Serializer.Accepted`, `Serialized.Ordinates`). Both change the predicted size against the
  bytes written (`Serializer.ExcessIsExact`), so a point with a second vertex, or a line with
  vertices that differs in M, is refused when it stands alone
  (`Readback.AloneIsRefused`); in a collection the differences can cancel, and then the
  geometry is written and does not come back (`Readback.HiddenMeasures`). Exactly the uniform
  geometries with allowed members come back (`Readback.RoundTripExactly`).
- A box flag left set on a geometry without a box is written as it stands, and the reader
  skips a box that is not there. This matters exactly where no box is added: to geometries
  that need none, and to empty ones (`Readback.StaleFlagMatters`, `Envelope.StaleBoxFlag`).
- A line that starts at a blade point is never cut there, nor at a later pass through the
  same point; the same holds for the second piece of every cut
  (`Cutting.AtEnd`, `Cutting.SplitsAtMostTwice`).
- On a segment shorter than the tolerance Z and M are not interpolated but taken from its
  start. The point of the cut can then be off the line (`Cutting.CutOnSegment`,
  `Split.ShortCutIsLeft`), and a point just behind a vertex can cut twice
  (`Cutting.SplitsTwiceWhen`, `Split.ThreePieces`).

## Model

| member | source | states |
|---|---|---|
| Planar.PtSegDist2Exact | src/measures.c:2239-2266 | the squared point-to-segment distance is the least squared distance to any point of the segment, attained by one of them, also for a segment of one point |
| Planar.LinesMeet | src/measures.c:1708-1728 | when the denominator is not zero, the two solved parameters name one and the same point of both lines |
| Planar.SegmentInBox | src/measures.c:510-513 | a segment with both ends in a box lies in the box |
| Convex.SlideToEdge | src/measures.c:1730-1736 | when the best pair of two lines lies outside the unit square, every pair inside it can be slid, without getting farther apart, to an edge that the best pair is beyond |
| Measures.EndsSettleMinimum | src/measures.c:1714-1741 | for two segments that cannot cross, testing the four end points against the other segment settles the minimum over all pairs of points |
| Measures.EndsSettleMaximum | src/measures.c:1142-1155 | the maximum over all pairs of points of two segments is settled by end points |
| Measures.DistPts.constructor | src/measures.c:86-97 | a search whose caller sets start distance, mode and tolerance itself holds them, and the origin twice |
| Measures.DistPts.Init | src/measures.c:69-80 | the search set up by rt_dist2d_distpts_init: distance FLT_MAX for a minimum and -FLT_MAX for a maximum, `twisted` -1, tolerance 0, the origin twice |
| Measures.DistPts.PtPt | src/measures.c:2129-2151 | the accumulator changes only to a strictly better distance, then holds the two points in the order given by `twisted`, and is not beaten by the pair |
| Measures.DistPts.PtSeg | src/measures.c:2053-2118 | the accumulator ends at an extreme no pair of the point and the segment beats, recorded with points that attain it; both modes, one-point segments included |
| Measures.DistPts.EndsAgainst | src/measures.c:1732-1735 | the four end tests leave no end point with a better partner, flip `twisted` once and keep the recorded points on their own segments |
| Measures.DistPts.SegSeg | src/measures.c:1666-1772 | no pair of points of the two segments beats the recorded distance: crossing, collinear, parallel and one-point segments, both modes; p1 and p2 stay on the right segment through every flip |
| Measures.DistPts.SelectedSegSeg | src/measures.c:2007-2034 | the same without the crossing test, for segments that cannot cross |
| Measures.DistPts.EachPtPt | src/measures.c:1142-1156 | the vertex pairs give the exact maximum over two polylines |
| Measures.DistPts.PtArrayPtArray | src/measures.c:1133-1179 | the nested loop leaves the exact extreme over all pairs of points of two polylines unless it stopped at the tolerance; with a line of one vertex a minimum search compares nothing |
| Measures.SlopeDefined | src/measures.c:1831-1859 | the slope of the centre line never divides by zero when the box centres differ |
| Measures.FillList | src/measures.c:1834-1849 | every vertex is listed once with its projected measure |
| Measures.SortList | src/measures.c:1880-1882 | sorting keeps the listed vertices and puts their measures in ascending order |
| Sorting.Qsort | src/measures.c:1880-1882 | the sorted part is in ascending order of its key and a permutation of what was there |
| Sorting.SameElements | src/rtlinearreferencing.c:1145 | a permutation holds exactly the elements it started with |
| Measures.MeasureGap | src/measures.c:1933 | two measures differ by at most sqrt(1 + k*k) times the distance of their points (Cauchy-Schwarz) |
| Measures.WideGapIsFar | src/measures.c:1940-1964 | a measure gap of at least the translated distance rules a pair of points out |
| Measures.MeasureOnSegment | src/measures.c:1964 | the measure of a point of a segment lies between the measures of its ends |
| Measures.SettledEverywhere | src/measures.c:1920-1998 | if every edge pair was compared or ruled out by the measures of its ends, no pair of points of the two lines is nearer than recorded |
| Measures.GapSettlesRow | src/measures.c:1964 | the inner break skips no closer pair |
| Measures.GapSettlesRows | src/measures.c:1940 | the outer break skips no closer pair |
| Measures.DistPts.Compare | src/measures.c:1965-1990 | one edge pair: the orientation is reset, the distance never grows and the pair is settled |
| Measures.DistPts.SweepRow | src/measures.c:1962-1993 | one vertex of the first line with one of its edges is settled against the whole second line, the break included |
| Measures.DistPts.SweepVertex | src/measures.c:1941-1994 | the same for both edges of the vertex |
| Measures.DistPts.PreSegSeg | src/measures.c:1920-1998 | the pruned double loop leaves no closer pair of points on two disjoint lines |
| Measures.BoxesSeparate | src/measures.c:500-517 | lines whose boxes do not overlap have no common point |
| Measures.DistPts.FastPtArrayPtArray | src/measures.c:1792-1906 | the fast path gives the exact minimum for lines with disjoint boxes, whichever comes first, with p1 and p2 on their own lines after the flip |
| Measures.ExactExtreme | src/measures.c:215-229 | from a start beyond the answer a finished search holds the exact extreme, with points of the right lines that attain it |
| Measures.SearchFromInit | src/measures.c:69-80 | a whole search as it is initialised ends at the exact extreme with two points that have it, the first on the second line, for lines less than FLT_MAX apart at their first vertices |
| Measures.SearchesAgree | src/measures.c:1792-1998 | two finished searches from one start record the same distance |
| Measures.FastAgainstBrute | src/measures.c:1133-1179 | run side by side on lines of two or more vertices with disjoint boxes and tolerance zero, the fast path and the brute force end with the same, exact distance |
| Measures.ZeroToleranceFinishes | src/measures.c:1172 | with tolerance zero the early return loses nothing |
| Spatial.NearestOnSegment | src/measures3d.c:761-794 | no point of a segment in space is nearer to p than the clamped projection |
| Spatial.DeterminantNonNegative | src/measures3d.c:935-940 | the determinant of the direction products is never negative |
| Convex.StationarySuffices | src/measures3d.c:961-1011 | a pair of parameters meeting the first-order conditions on the unit square is a minimum over all pairs of points |
| Convex.StationaryNecessary | src/measures3d.c:961-1011 | a pair that does not meet them is beaten by another pair inside the square |
| Measures3d.SolvedIsMinimum | src/measures3d.c:955-959 | the solved parameters are where two lines come closest |
| Measures3d.ViolatedEndsSettle | src/measures3d.c:962-996 | with D >= 1e-9, testing only the ends whose parameter fell outside [0,1] settles the minimum |
| Measures3d.ParallelIsExact | src/measures3d.c:943-954 | with D = 0 the shortcut for parallel lines is exact |
| Measures3d.TestedIsMinimumIff | src/measures3d.c:943-996 | for 0 <= D < 1e-9 the tested pair is the minimum exactly when it meets the first-order conditions, that is, on `Exact` inputs |
| Measures3d.NearParallelMiss | src/measures3d.c:943-954 | two concrete nearly parallel segments on which it is not |
| Measures3d.ExactSettles | src/measures3d.c:962-1011 | on an `Exact` input the tests that are made settle the minimum |
| Measures3d.InexactMisses | src/measures3d.c:962-1011 | on every other input some pair of points beats what was recorded |
| Measures3d.DistPts3d.PtPt | src/measures3d.c:815-839 | the accumulator takes a strictly better pair, in either mode, in the order given by `twisted`, and is not beaten by the pair |
| Measures3d.DistPts3d.PtSeg | src/measures3d.c:750-811 | no point of the segment beats what is recorded, in either mode, and what is recorded is attained |
| Measures3d.DistPts3d.FlippedPtSeg | src/measures3d.c:980-987 | an end of the second segment against the first, with the order flipped |
| Measures3d.DistPts3d.TestViolated | src/measures3d.c:962-996 | exactly the violated ends are settled, and the recorded points stay on their segments |
| Measures3d.DistPts3d.TestLines | src/measures3d.c:926-1012 | either the solved pair or the violated ends are settled |
| Measures3d.DistPts3d.SegSeg | src/measures3d.c:901-1013 | on `Exact` inputs no pair of points is nearer than recorded, one-point and parallel segments included, and so whenever the determinant is 0 or at least 1e-9; when the distance dropped, this holds if and only if the input is `Exact` |
| Measures3d.VerticesSettleMaximum | src/measures3d.c:857-871 | the greatest distance of two polylines in space is attained at vertices |
| Measures3d.DistPts3d.EachPtPt | src/measures3d.c:857-871 | the vertex pairs give the exact maximum over two polylines in space |
| Measures3d.DistPts3d.PtArrayPtArray | src/measures3d.c:847-897 | in maximum mode the exact maximum; in minimum mode, for polylines whose segment pairs are all `Exact`, or all have a determinant of 0 or at least 1e-9, the exact minimum unless the loop stopped at the tolerance |
| PointArrays.PointArray.Empty | src/ptarray.c:71-93 | a new array has no vertex and the given capacity |
| PointArrays.PointArray.MakeRoom | src/ptarray.c:116-136 | full storage is replaced, the vertices stay |
| PointArrays.PointArray.InsertPoint | src/ptarray.c:97-154 | the stored point is inserted at its offset and every other vertex kept in order; a read-only array or an offset out of range is refused and nothing changes |
| PointArrays.PointArray.AppendPoint | src/ptarray.c:157-185 | the stored point is added at the end unless it repeats the last vertex in the dimensions kept; a read-only array stays as it is and the call fails exactly when something would be added |
| PointArrays.PointArray.Reverse | src/ptarray.c:344-363 | in place, the vertices end in reverse order |
| PointArrays.PathAppended | src/ptarray.c:167-181 | dropping a repeated vertex does not change the drawn points |
| OrdinateClip.PointInterpolate | src/rtlinearreferencing.c:323-359 | the point found is the point of the line at that ordinate value, no division by zero; a value not between the points is refused and the result left alone |
| OrdinateClip.SubSegment | src/rtlinearreferencing.c:344-356 | cutting a segment at two ordinates leaves exactly its points between them |
| OrdinateClip.BothInside | src/rtlinearreferencing.c:621-659 | a segment with both ends in range is in range |
| OrdinateClip.SameSide | src/rtlinearreferencing.c:690-713 | a segment with both ends beyond one bound has no point in range |
| OrdinateClip.Leaving | src/rtlinearreferencing.c:664-689 | leaving the range, from inside or from either bound, the segment is kept up to the bound it crosses |
| OrdinateClip.Entering | src/rtlinearreferencing.c:626-648 | entering the range, also onto a bound from the far side, the segment is kept from the bound it crosses |
| OrdinateClip.Hopping | src/rtlinearreferencing.c:690-713 | hopping over the range keeps the piece between the bounds |
| OrdinateClip.ComesIn | src/rtlinearreferencing.c:631-644 | a segment into the range is in it exactly from one fraction on |
| OrdinateClip.GoesOut | src/rtlinearreferencing.c:661-690 | a segment out of the range is in it exactly up to one fraction |
| OrdinateClip.Passes | src/rtlinearreferencing.c:691-712 | a segment past the range is in it exactly between two fractions, which are one only when the range is one value |
| OrdinateClip.AppendCut | src/rtlinearreferencing.c:643-645 | the interpolated point ends up last in the open part |
| OrdinateClip.StepInside | src/rtlinearreferencing.c:622-659 | a vertex in range extends the open part by exactly the points of its segment in range, or opens a new part with them |
| OrdinateClip.StepOutside | src/rtlinearreferencing.c:661-739 | a vertex out of range closes the open part, and what is saved draws exactly the points of the segment in range |
| OrdinateClip.Hop | src/rtlinearreferencing.c:690-713 | a segment that passes the whole range leaves its piece between both bounds, in its direction |
| OrdinateClip.ClipToOrdinateRange | src/rtlinearreferencing.c:557-777 | for every line and range: the parts are, in the order and direction of the line, exactly the stretches on which the ordinate is in range, each the start, the vertices on it and the end, and a single position within an edge twice; together they draw exactly the points in range |
| OrdinateClip.AllPositions | src/rtlinearreferencing.c:597-757 | every vertex of every part has its position on the line, and within a part positions increase strictly, but for a part of two equal points |
| OrdinateClip.PartInRange | src/rtlinearreferencing.c:597-757 | all positions from the first to the last of a part are in range |
| OrdinateClip.GapBetween | src/rtlinearreferencing.c:713-738 | between two parts there is a position out of range |
| Approach.LocatedIsPosition | src/rtlinearreferencing.c:34-77 | for measures in either order a point is located exactly within them, at the uniformly moving position; on a level segment exactly when both ends count as one point, and an error otherwise |
| Approach.LocateAlongLinear | src/rtlinearreferencing.c:1057-1075 | for every line: the first segment that does not miss the measure and the point located on it; -1 exactly when all miss it; for a trajectory the point is its position, found exactly at the times it is alive |
| Approach.PosUniform | src/rtlinearreferencing.c:62-66 | between two times with no vertex between them a trajectory moves uniformly |
| Approach.GapInCoordinates | src/rtlinearreferencing.c:34-77 | the distance at a time is the Euclidean one of the points in proportion on the segments of both lines |
| Approach.RelativeMotion | src/rtlinearreferencing.c:943-967 | the squared distance of two uniformly moving points is a parabola in time with the inner products as coefficients |
| Approach.StillIsEarliest | src/rtlinearreferencing.c:951-955 | without relative motion the start is the earliest time of least distance |
| Approach.ClampedIsEarliest | src/rtlinearreferencing.c:967-980 | the clamped vertex of the parabola is the earliest time of least distance on the interval |
| Approach.SegmentsTcpa | src/rtlinearreferencing.c:913-996 | the time is the earliest of least distance on the interval and both points end where they are then |
| Approach.MeasureRange | src/rtlinearreferencing.c:1110-1123 | the measure range of a line bounds all its measures and both bounds are attained |
| Approach.CommonRange | src/rtlinearreferencing.c:1122-1123 | the range is empty exactly when all measures of one line are before all of the other; two trajectories exist together exactly at its times |
| Approach.CollectMvals | src/rtlinearreferencing.c:999-1010 | exactly the measures in range are added behind what was there |
| Approach.Uniq | src/rtlinearreferencing.c:1027-1040 | in place, an ascending list becomes strictly ascending with the same members; an empty list still counts one |
| Approach.StampsCutTime | src/rtlinearreferencing.c:1141-1148 | the distinct stamps cut the common time into intervals without a vertex inside |
| Approach.BlockedInList | src/rtlinearreferencing.c:1137-1216 | looking up positions meets a segment without measure length between two consecutive common stamps, or at the only one, exactly when it does so in the list of times |
| Approach.CommonTimes | src/rtlinearreferencing.c:1137-1148 | collecting, sorting and deduplicating gives exactly the stamps in range, ascending; for trajectories they cut the common time |
| Approach.ApproachBetween | src/rtlinearreferencing.c:1185-1220 | on an interval of common time without a vertex inside the result is the earliest time of least distance, with that distance |
| Approach.DistanceAt | src/rtlinearreferencing.c:1154-1171 | at a single common time the distance is that of the two positions |
| Approach.SearchTimes | src/rtlinearreferencing.c:1182-1227 | the loop stops with an error exactly when a segment without measure length is met; otherwise after each interval the recorded time is the earliest of the best so far |
| Approach.BestIsAnswer | src/rtlinearreferencing.c:1087-1241 | over the whole range the best found is the earliest time at which the distance is globally least, or the first common time where no distance is below the start value |
| Approach.Tcpa | src/rtlinearreferencing.c:1078-1242 | for every pair of lines the refusals, the answer -2 and the error on a segment without measure length are exact; for trajectories no error on measures occurs and the result is a common time; it is the earliest at which the distance is globally least, with that distance, if and only if the squared distance somewhere is below FLT_MAX (340282346638528859811704183484516925440) or is exactly that at the time returned, or there is one common time only |
| Approach.FarLinesMiss | src/rtlinearreferencing.c:1087 | beyond FLT_MAX in square the first common time comes back although a later one is nearer |
| Approach.CpaWithin | src/rtlinearreferencing.c:1245-1402 | for trajectories true exactly when at some common time the distance is at most the given one; with a negative distance, exactly when in addition the common range is more than an instant; the refusals are exact for every pair of lines |
| Approach.SearchWithin | src/rtlinearreferencing.c:1344-1393 | the loop that stops early answers whether some common time is near enough |
| Simplify.DpFindSplit | src/ptarray.c:1474-1520 | the split is the first of the farthest vertices strictly between the two, with its squared distance; -1 when there is none |
| Simplify.StackRoom | src/ptarray.c:1535-1560 | the stack never needs more room than there are vertices |
| Simplify.NearLineIsTwoPoints | src/ptarray.c:1523-1579 | by the definition, a line whose vertices are all within epsilon of the segment of its ends is simplified to its ends |
| Simplify.RemainingPush | src/ptarray.c:1557-1561 | pushing the first farthest vertex, where it is farther than epsilon, leaves what remains to be put out by the definition |
| Simplify.ForcedPush | src/ptarray.c:1557 | a vertex is pushed for the sake of the minimum only while fewer are put out or stacked |
| Simplify.Pushed | src/ptarray.c:1557-1561 | one push keeps the same and fits the stack |
| Simplify.Popped | src/ptarray.c:1562-1571 | one pop keeps the selection increasing, everything passed near it, and output plus stack at the asked minimum |
| Simplify.SimplifyArray | src/ptarray.c:1523-1579 | terminates within the stack; the output is a selection from the first to the last vertex, every input vertex is within epsilon of the selected segment over it, and at least min(minpts, npoints) vertices are selected; each inner one is the first farthest between two selected ones and farther than epsilon, but for at most minpts - 2 (none for minpts up to 2) and one for each repetition; for minpts up to 2 the selection is that of the recursive definition; when minpts asks for all, all are put out if and only if no two neighbours in the input are equal |
| Simplify.SelectEnds | src/ptarray.c:1545-1566 | the output starts with the first and ends with the last selected vertex |
| Simplify.SelectIsSubsequence | src/ptarray.c:1564-1566 | the output is a subsequence of the input |
| Simplify.SelectedSegmentDrawn | src/ptarray.c:1564-1566 | the output polyline runs along every selected segment |
| Simplify.NearOutput | src/ptarray.c:1557-1566 | a vertex near a selected segment is as near to a point of the output polyline |
| Simplify.AllNearOutput | src/ptarray.c:1550-1579 | every input vertex is within epsilon of some point of the output polyline |
| Simplify.DistinctKeepsAll | src/ptarray.c:1550-1575 | with pairwise distinct vertices all selected vertices are put out, so the minimum is met |
| Simplify.SelectLoses | src/ptarray.c:167-181 | the output has one vertex less than were selected for each neighbour of the selection that repeats the one before it |
| Simplify.SelectKeepsAll | src/ptarray.c:167-181 | all selected vertices are put out if and only if no two neighbours of the selection are equal |
| Simplify.AllSelected | src/ptarray.c:1550-1575 | when as many are selected as there are, all are, so all are put out if and only if no two neighbours of the input are equal |
| Simplify.RepeatedVertexLost | src/ptarray.c:1523-1579 | simplifying two equal points with a minimum of two puts out one |
| Rings.BoundaryTest | src/rtalgorithm.c:77-115 | side zero together with the segment test finds exactly the points of a segment other than one end |
| Rings.HalfOpenCovers | src/ptarray.c:733-763 | on an exactly closed ring with two distinct vertices these half-open edges cover every point of every edge |
| Rings.ContainsPointPartial | src/ptarray.c:719-800 | BOUNDARY exactly for points of a half-open edge, otherwise INSIDE exactly when the winding number, which is handed out, is not zero; a ring that is not closed is refused when asked; inside exactly when the ray from the point meets more edges one way than the other |
| Rings.PtInRing2d | src/rtalgorithm.c:296-348 | the answer is the parity of the crossings to the right; rings whose ends differ are refused; inside exactly when the ray meets an odd number of edges |
| Rings.CrossingIsTurn | src/rtalgorithm.c:324-341 | an edge is a crossing exactly when it turns the winding number, by one |
| Rings.SameParity | src/rtalgorithm.c:296-348 | crossing number and winding number have the same parity |
| Rings.CrossingIsMeeting | src/rtalgorithm.c:324-341 | an edge counts exactly when the ray from the point to the right meets it, its lower end included |
| Rings.NumbersCount | src/ptarray.c:719-800 | the winding number is how many more edges the ray meets upward than downward, the crossing number how many it meets |
| Rings.CompareContainment | src/ptarray.c:719-800 | on every exactly closed ring: BOUNDARY if and only if the point is on an edge and the ring has two distinct vertices, and off the boundary the two algorithms agree in parity |
| Rings.CalculateGbox | src/g_box.c:520-562 | the box is the least one holding all vertices |
| Rings.OutsideBox | src/ptarray.c:744-783 | up and down crossings of a closed ring balance, so nothing winds around a point outside the box and no edge holds it |
| Rings.OutsideOfBox | src/g_box.c:335-343 | a point outside the computed box is classified OUTSIDE |
| Rings.ReversedWinding | src/ptarray.c:770-783 | reversing a ring negates the winding number |
| Rings.ReverseRing | src/ptarray.c:344-363 | the same for the in-place reversal |
| Rings.PathReversed | src/ptarray.c:344-363 | the reversed ring draws the same points |
| Rings.ContainmentReversed | src/ptarray.c:344-363 | the containment answer is the same before and after the ring is reversed in place, for every exactly closed ring and for every point off the ring |
| Geohash.PointInCell | src/rtalgorithm.c:612-639 | a point of the world stays in its cell at every precision |
| Geohash.OwnedByItsBits | src/rtalgorithm.c:604-640 | the cells of any one length divide the world: a point is given exactly the bits whose cell owns it, upper edges belonging to the next cell |
| Geohash.SpellRoundTrip | src/rtalgorithm.c:737-755 | decoding the characters gives back the bits |
| Geohash.SpellInjective | src/rtalgorithm.c:590-655 | different bits are spelled differently |
| Geohash.HalveInterval | src/rtalgorithm.c:616-625 | a value within the interval is within the half that is kept, which lies in the interval and is half as long; the bit tells which half it is |
| Geohash.GeohashPoint | src/rtalgorithm.c:597-655 | the string spells the first 5*precision bits of the bisection |
| Geohash.DecodeCharacter | src/rtalgorithm.c:742-754 | the five bits of a character narrow the cell, the axes taking turns across characters |
| Geohash.DecodeGeohashBbox | src/rtalgorithm.c:719-756 | the box is the cell of the decoded bits, the length clamped as in the source, upper case accepted |
| Geohash.EncodeDecode | src/rtalgorithm.c:597-655 | decoding an encoded point gives the cell the encoder ended in, and the point lies in it |
| Geohash.ShareBit | src/rtalgorithm.c:792-807 | all points of a box strictly within a half of the cell choose that half |
| Geohash.ShareTwoBits | src/rtalgorithm.c:809-818 | an adjustment cycle adds two shared bits |
| Geohash.HalvingFits | src/rtalgorithm.c:786-823 | halving the cell lowers a whole number, so the loop ends |
| Geohash.GeohashPrecision | src/rtalgorithm.c:758-834 | terminates; all points of the box share the bits that are counted, and their number is the least even one after which the box is strictly within no quarter of its cell; 20 characters for a point |
| Geohash.GeohashOfBox | src/rtalgorithm.c:843-881 | the hash of the centre, with the precision asked for or the one above; then every point of the box has that hash and lies in its cell; refused exactly outside the world |
| Grid.CellOfBits | src/rtalgorithm.c:725-770 | the cell of a bit string is a column of 2^a and a row of 2^b over -180 to 180 and -90 to 90, numbered by the bits taken by turns |
| Grid.NumbersOfPoint | src/rtalgorithm.c:607-640 | the bits of a point taken by turns are its column floor((lon+180)*2^a/360) and its row floor((lat+90)*2^b/180), the last ones closed |
| Grid.BitsByTurns | src/rtalgorithm.c:612-640 | bit k is the last binary digit of the column, for even k, or of the row at its depth |
| Grid.Alphabet | src/rtalgorithm.c:590 | the alphabet is the 32 digits and lower-case letters without a, i, l, o, ascending |
| Grid.CaseDoesNotMatter | src/rtalgorithm.c:739-740 | every character, and its upper-case letter, is read as its number |
| Grid.HashAndCell | src/rtalgorithm.c:593-790 | for every point of the world the characters spell the binary digits of column and row, five at a time, and the decoded cell is that column and that row |
| Grid.CellOfString | src/rtalgorithm.c:720-790 | any string of geohash characters is decoded to the column and row its bits number |
| Polyline.RoundIsNearest | src/rtout_encoded_polyline.c:80-88 | rounding is to a nearest integer and symmetric |
| Polyline.ScaleIsPowerOfTen | src/rtout_encoded_polyline.c:76 | the scale is a power of ten, for negative precisions too |
| Polyline.SumsOfDeltas | src/rtout_encoded_polyline.c:83-90 | the running sums of the differences are the numbers themselves: no drift |
| Polyline.SumsAreInjective | src/rtout_encoded_polyline.c:83-90 | differences are determined by their running sums |
| Polyline.ZigzagRoundTrip | src/rtout_encoded_polyline.c:92-101 | the signed number comes back from the 32-bit shift and complement if and only if it is in [-2^30, 2^30) |
| Polyline.NumberRoundTrip | src/rtout_encoded_polyline.c:106-123 | a number is read back from its characters, the doubled 92 included, and ends where it ends whatever follows |
| Polyline.NumberCharacters | src/rtout_encoded_polyline.c:108-124 | the characters are the digits to the base 32 from the lowest on, plus 95, the last plus 63, a backslash twice |
| Polyline.NumbersRoundTrip | src/rtout_encoded_polyline.c:103-124 | a list of numbers is read back from the text alone |
| Polyline.RoundTrip | src/rtout_encoded_polyline.c:69-131 | the text gives back every rounded ordinate if and only if all differences, the ordinates of the first point included, are at least -2^30 and below 2^30 |
| Polyline.TextDeterminesLine | src/rtout_encoded_polyline.c:69-131 | lines within that bound with equal texts have equal rounded ordinates |
| Polyline.LongStepLost | src/rtout_encoded_polyline.c:95-100 | a step of 2^30 is lost |
| Polyline.FillDeltas | src/rtout_encoded_polyline.c:78-90 | the array ends as the first point followed by the differences, y before x |
| Polyline.FoldSigns | src/rtout_encoded_polyline.c:92-101 | in place, every entry is replaced by its unsigned code |
| Polyline.AppendNumber | src/rtout_encoded_polyline.c:106-123 | the loop appends exactly the characters of the number |
| Polyline.WriteNumbers | src/rtout_encoded_polyline.c:103-124 | the text is the numbers one after the other |
| Polyline.PointArrayToEncodedPolyline | src/rtout_encoded_polyline.c:69-131 | the text written for at least one point decodes to its rounded ordinates if and only if all steps fit |
| Polyline.KnownText | src/rtout_encoded_polyline.c:69-131 | the well-known line of three points is written as its well-known text |
| Iterator.RunIsPrefix | src/rtiterator.c:156-211 | a run over some arrays is a prefix of all their vertices, and all of them exactly when no vertex stands behind an empty array |
| Iterator.KeptOfEvery | src/rtiterator.c:72-80 | leaving out what counts as empty loses no vertex exactly when polygons with an empty first ring have no vertex at all |
| Iterator.EveryInOrder | src/rtiterator.c:85-141 | the order of a full traversal: members, rings and vertices as they are numbered |
| Iterator.KnownVisit | src/rtiterator.c:85-192 | a collection of a point, a polygon of two rings and a collection is visited in this order |
| Iterator.VisitsEverything | src/rtiterator.c:121-225 | the visited sequence is the recursive left-to-right flattening if and only if both hold |
| Iterator.VisitsEveryVertex | src/rtiterator.c:121-225 | in particular for every geometry whose polygons have no empty ring |
| Iterator.EmptyHoleStops | src/rtiterator.c:162-191 | a polygon with an empty hole ends the iteration at that hole |
| Iterator.PointIterator.Create | src/rtiterator.c:245-268 | a new iterator has the whole visited sequence ahead of it |
| Iterator.PointIterator.AddGeomToStack | src/rtiterator.c:72-80 | a geometry goes on the stack unless it is empty |
| Iterator.PointIterator.UnrollCollection | src/rtiterator.c:121-141 | replacing a collection by its members keeps the arrays waiting, in order, and makes the stack lighter |
| Iterator.PointIterator.UnrollCollections | src/rtiterator.c:146-153 | ends with no collection on top and the same arrays waiting |
| Iterator.PointIterator.ExtractPointArrays | src/rtiterator.c:85-116 | the arrays of a geometry come in order, shell first |
| Iterator.PointIterator.Refill | src/rtiterator.c:168-191 | taking the next geometry apart keeps the arrays to come |
| Iterator.PointIterator.Advance | src/rtiterator.c:155-192 | exactly the current vertex is dropped from what is to come |
| Iterator.PointIterator.HasNext | src/rtiterator.c:205-211 | true exactly when a vertex is to come |
| Iterator.PointIterator.Peek | src/rtiterator.c:196-203 | the next vertex as its array holds it |
| Iterator.PointIterator.Next | src/rtiterator.c:213-225 | the next vertex is handed out and dropped from what is to come; failure exactly at the end, and it stays the end |
| Iterator.PointIterator.ModifyNext | src/rtiterator.c:227-243 | only the current vertex is overwritten, in the dimensions its array keeps, and the sequence moves on; a read-only iterator changes nothing |
| Iterator.Drain | src/rtiterator.c:213-225 | calling next until it fails hands out exactly the visited vertices in order |
| Bytes.WordAt | src/rtgeom_api.c:584-591 | a 32-bit count is read back from where it was written |
| Bytes.Put | src/g_serialized.c:594-605 | the bytes stand at the cursor and every other byte is kept; a write past the end is reported and not made |
| Serialized.SizeIsExact | src/g_serialized.c:421-567 | for every uniform geometry the predicted size is the number of bytes written, a multiple of eight |
| Serialized.BlocksAligned | src/g_serialized.c:666-700 | every run of ordinates, at any nesting, starts on a multiple of eight and holds the ordinates of its array |
| Serialized.RingsReadBack | src/g_serialized.c:1092-1104 | the rings of a polygon are read back from their counts and ordinates |
| Serialized.ReadsBack | src/g_serialized.c:994-1264 | reading a written uniform geometry gives back types, nesting, counts and ordinates if and only if every member is allowed in its collection; otherwise the error is the invalid subtype (other geometries: `Readback.ReadsBackExactly`) |
| Serialized.TypeAt | src/g_serialized.c:593-598 | a written geometry starts with its type |
| Serializer.UniformIsAccepted | src/g_serialized.c:577-852 | no writer objects to a uniform geometry |
| Serializer.PutHead | src/g_serialized.c:593-598 | type and count stand at the cursor |
| Serializer.FromPoint | src/g_serialized.c:577-608 | the image of a point, only its first vertex stored; fails exactly on mismatched dimensions or for want of room |
| Serializer.FromPoints | src/g_serialized.c:610-649 | the image of a line, triangle or circular string; a line is only asked whether Z agrees |
| Serializer.PutCounts | src/g_serialized.c:674-679 | the counts of the rings stand one after the other |
| Serializer.PutRings | src/g_serialized.c:688-700 | the ordinates of the rings stand one after the other |
| Serializer.FromPolygon | src/g_serialized.c:651-702 | the image of a polygon: counts, padding when their number is odd, ordinates |
| Serializer.FromCollection | src/g_serialized.c:781-812 | the image of a collection: the images of its members in order |
| Serializer.FromGeomAny | src/g_serialized.c:814-852 | for every geometry the image is written and its size returned, or it fails exactly when a check objects or the image does not fit |
| Serializer.FromAnySize | src/g_serialized.c:421-551 | the loops add up to the predicted size |
| Serializer.ExcessIsExact | src/g_serialized.c:421-551 | for every geometry the writers accept, prediction and bytes written differ by what the counts say: the further vertices of points, and the measures that the flags of lines announce less those they hide |
| Serializer.OnlyHiddenCancels | src/g_serialized.c:421-649 | unless a line hides measures, prediction and bytes agree if and only if no point has a second vertex and no line with a vertex differs in M |
| Deserializer.SimpleFromBuffer | src/g_serialized.c:994-1055 | a point, line, triangle or circular string as the format defines it; cut-short data is an error |
| Deserializer.PolygonFromBuffer | src/g_serialized.c:1057-1110 | a polygon read with two cursors |
| Deserializer.CollectionFromBuffer | src/g_serialized.c:1174-1224 | a collection and its members, the box flag cleared below, subtypes checked |
| Deserializer.GeomFromBuffer | src/g_serialized.c:1226-1264 | any geometry; unknown types are an error |
| Envelope.SridRoundTrip | src/g_serialized.c:85-116 | whatever SRID is set, the clamped one is read back from three bytes |
| Envelope.SridOfBytes | src/g_serialized.c:85-100 | any three bytes are read as 21 bits with a sign: 0 for a negative number, 999000 and the remainder of 999 for one above 999999 |
| Envelope.FlagRoundTrip | headers/librttopo_geom.h.in:104-118 | the flag byte gives back the flags |
| Envelope.BoxReadsBack | src/g_serialized.c:174-215 | a box with the ranges of the geometry has the predicted size and is read back as single precision leaves it |
| Envelope.BoxReadsBackExactly | src/g_serialized.c:174-215 | it is read back if and only if it has the ranges of the geometry |
| Envelope.FlaggedIsSame | src/g_serialized.c:1202-1218 | the reader returns the very geometry if and only if the flags of every part follow from those of the whole |
| Envelope.WholeParts | src/g_serialized.c:945-985 | header, box and image stand where a reader looks for them |
| Envelope.WholeIsAligned | src/g_serialized.c:945-985 | in a complete serialization, with or without a box, every run of ordinates starts on a multiple of eight |
| Envelope.RoundTrip | src/g_serialized.c:1266-1311 | a complete serialization of a regular geometry decodes to the geometry, the clamped SRID and the rounded box if and only if all subtypes are allowed, and its size field is right if and only if the size is below 2^30 (other geometries: `Readback.RoundTripExactly`) |
| Envelope.StaleBoxFlag | src/g_serialized.c:939-955 | one empty point whose box flag is set without a box: the reader looks past the end (all geometries: `Readback.StaleFlagMatters`) |
| Envelope.RegularIsWritten | src/g_serialized.c:945-967 | regular geometries are always written |
| Envelope.FromGbox | src/g_serialized.c:854-918 | the box is written with its lower bounds rounded down and its upper bounds rounded up |
| Envelope.SetSrid | src/g_serialized.c:102-116 | three bytes change and no others |
| Envelope.PutBody | src/g_serialized.c:953-958 | box and geometry are written behind the header |
| Envelope.PredictedExcess | src/g_serialized.c:553-567 | predicted and written size of the whole differ by the excess of the geometry and that of the box |
| Envelope.FromGeom | src/g_serialized.c:939-986 | for every geometry: the complete serialization, or an error exactly when a check objects or the counts leave an excess |
| Envelope.ReadGbox | src/g_serialized.c:174-215 | the stored box as read back, or failure when there is none |
| Envelope.FromSerialized | src/g_serialized.c:1266-1311 | for every byte sequence: SRID, box and geometry as the format defines them, or the error |
| Readback.ReadIsUniform | src/g_serialized.c:994-1264 | whatever the bytes, a geometry that is read has the flags handed in, agrees in Z and M throughout, and has only members its collections allow |
| Readback.ReadsBackExactly | src/g_serialized.c:577-1264 | a geometry the writers accept is read back if and only if it is uniform and its members are allowed |
| Readback.RoundTripExactly | src/g_serialized.c:922-1311 | from the complete serialization of any geometry the writers accept, the geometry, the clamped SRID and the rounded box come back if and only if the geometry is uniform, its members are allowed, and its box has its ranges or none is announced |
| Readback.WellNestedIsAllowed | src/rtcollection.c:538-582 | the members allowed by type are, by type number: 1 in 4; 2 in 5; 3 in 6; all in 7; 2, 8 in 9; 2, 8, 9 in 10 and 11; 3, 10 in 12; 3 in 13; 14 in 15 |
| Readback.ReadsBackByType | src/g_serialized.c:577-1264 | a written uniform geometry starts with its type number and its count, and is read back if and only if its collections hold members of those types only; otherwise the error is the invalid subtype |
| Readback.RoundTripByType | src/g_serialized.c:922-1311 | the same for a complete serialization, whose first eight bytes are four times its size, the SRID and the flags, a bit each |
| Readback.SimpleLiesAt | src/g_serialized.c:577-649 | the ordinates stand eight bytes behind the start, eight bytes each, of a point those of its first vertex |
| Readback.PolygonLiesAt | src/g_serialized.c:666-702 | the counts of the rings stand behind the head, four zero bytes behind an odd number of them, then the ordinates ring after ring |
| Readback.MemberLiesAt | src/g_serialized.c:781-812 | the members of a collection stand behind the head one after the other, in order |
| Readback.BoxLiesAt | src/g_serialized.c:854-918 | the box stands as the ranges of X, Y, Z and M, each the lower bound rounded down and the upper rounded up |
| Readback.WholeLiesAt | src/g_serialized.c:945-960 | the box stands at byte 8 and the geometry behind it |
| Readback.FromRtgeom | src/g_serialized.c:922-986 | with the box added that rtgeom_needs_bbox asks for: the result is there if and only if no check objects and the counts leave no excess, its head says whether there is a box, and the original comes back from it if and only if the three conditions hold |
| Readback.BoxByCounts | src/rtgeom.c:1118-1150 | no box for a point, a line of up to two vertices, a multipoint of one member and a multiline of one member with up to two vertices; a box for all others |
| Readback.StaleFlagMatters | src/g_serialized.c:934-943 | a regular geometry without a box comes back if and only if its box flag is not set or a box is added, that is, it needs one and is not empty |
| Readback.HiddenMeasures | src/g_serialized.c:577-649 | a collection of a point with two vertices and a line that hides its measures is written and does not come back |
| Readback.AloneIsRefused | src/g_serialized.c:577-649 | alone, a point is written exactly with at most one vertex and a line exactly when it has none or agrees in M |
| Shortcuts.IsEmptyRecurse | src/g_serialized.c:128-153 | on a written geometry, the walk over type and count words answers whether all counts are zero |
| Shortcuts.EmptyMeansNoVertex | src/rtgeom.c:1312-1353 | decoded emptiness: no array has a vertex, the rings of a polygon behind its first left aside |
| Shortcuts.EmptinessAgrees | src/g_serialized.c:148-152 | that answer is recursive emptiness if and only if the geometry is not empty or none of its polygons has a ring |
| Shortcuts.HollowPolygon | src/rtpoly.c:347-352 | a polygon on which they differ |
| Shortcuts.IsEmptySerialized | src/g_serialized.c:155-167 | the same on complete serializations, past header and box |
| Shortcuts.GetType | src/g_serialized.c:71-83 | the type is found behind the box |
| Shortcuts.PeekVertex | src/g_serialized.c:244-255 | the rounded box of one vertex, in its dimensions |
| Shortcuts.PeekPair | src/g_serialized.c:270-296 | the rounded box of two vertices |
| Shortcuts.ShortExtent | src/g_box.c:520-562 | the box computed for a point or a two-vertex line is that of the ordinates in the bytes |
| Shortcuts.PeekGbox | src/g_serialized.c:221-381 | peeking succeeds exactly on short geometries without a box that are not geodetic, and then the box is the one computed from the decoded geometry and rounded; it reads past the data exactly for a multipoint of one empty point |
| Cutting.PathConcat | src/rtgeom_geos_split.c:291-309 | two lines that meet at a vertex draw what the joined line draws |
| Cutting.SegmentCut | src/rtgeom_geos_split.c:291-309 | a point of a segment cuts it in two that cover it |
| Cutting.HitIsOn | src/rtgeom_geos_split.c:247-262 | distance zero is lying on the segment, seen in the plane |
| Cutting.OnPathIsHit | src/rtgeom_geos_split.c:240-262 | some segment is hit exactly when the point is on the line, seen in the plane |
| Cutting.CutIsStored | src/ptarray.c:1235-1276 | the cut is over the blade point and an array of the dimensions of the line keeps it as it is |
| Cutting.ClosestIsNearest | src/ptarray.c:1235-1276 | the projected point is the nearest point of the segment in the plane, with Z and M in proportion; of a segment shorter than the tolerance it is the start |
| Cutting.CutOnSegment | src/ptarray.c:1235-1276 | the cut is a point of the segment, Z and M included, if and only if the segment is not shorter than the tolerance, or is cut at its start, or has equal Z and M at both ends |
| Cutting.PiecesCover | src/rtgeom_geos_split.c:291-309 | in the plane the two pieces draw what the line drew, although repeated vertices are dropped; with Z and M too when the cut is a point of its segment |
| Cutting.SplitsAtMostTwice | src/rtgeom_geos_split.c:284-289 | the second piece is not split by the same point again, and the first at most once more |
| Cutting.SplitsTwiceWhen | src/rtgeom_geos_split.c:284-309 | the first piece is split again if and only if the segment ahead of the cut is shorter than the tolerance, its Z or M is off that of the cut by more, and there is another vertex before it |
| Split.ClosestSegment | src/rtgeom_geos_split.c:240-256 | the first of the segments at the least distance, with that distance; the search stops at the first one that is hit |
| Split.AppendVertices | src/rtgeom_geos_split.c:295-309 | the vertices are added in order, repeated ones once |
| Split.AddPieces | src/rtgeom_geos_split.c:291-321 | the part up to the cut and the part behind it are added, whatever the dimensions |
| Split.CutAlong | src/rtgeom_geos_split.c:291-309 | cut at a point of its segment, the first piece runs along where the line ran up to a position, the second from there on, in the direction of the line |
| Split.PiecesFollow | src/rtgeom_geos_split.c:291-309 | the first piece is the vertices up to the cut and the cut, the second the cut and the vertices behind it; cut at a point of its segment they tile the line |
| Split.TiledBySplit | src/rtgeom_geos_split.c:189-204 | replacing a piece by its two parts keeps the line tiled: each piece along a stretch of it, every position in one, no two with more than an end in common |
| Split.SplitByPointTo | src/rtgeom_geos_split.c:214-322 | 0 exactly when the point is not on a line of two or more vertices, seen in the plane, 2 exactly when it cuts the line inside, with both pieces added, and otherwise 1 with nothing added |
| Split.SplitAll | src/rtgeom_geos_split.c:189-204 | the scan over the growing collection ends; in the plane the pieces draw what they drew before, with Z and M too at places apart; none is split by the point any more, and there is one more piece for each cut that was pending; the order of the pieces is that of the scan |
| Split.SplitByMPoint | src/rtgeom_geos_split.c:177-211 | after all points the pieces draw, in the plane, exactly what the line drew; with Z and M too when no two of the places of vertices and points are closer than the tolerance without being one; then, and without Z and M, the pieces tile the line, each in its direction |
| Split.SplitByPoint | src/rtgeom_geos_split.c:157-174 | the line itself, or its two pieces; they draw in the plane what the line drew; with Z and M, if the cut is a point of its segment, and only if it is a point of the line; cut at a point of its segment, the line is tiled by them |
| Split.SteepIsCutTwice | src/rtgeom_geos_split.c:272-309 | a point just behind the start of a steep last segment cuts the line twice |
| Split.ThreePieces | src/rtgeom_geos_split.c:187-204 | one such line and its three pieces |
| Split.ShortCutIsLeft | src/ptarray.c:1239-1243 | on a line along an axis the cut of a short segment whose Z changes is not a point of the line |

## Left out

- IEEE rounding, NaN and infinities: ordinates are reals; conversion of boxes to single precision is an arbitrary pair of roundings in `Envelope.Rounding`, and the bytes of a double are read by an arbitrary function.
- Measures.DistPts: functions that always return RT_TRUE return nothing in the model, and distances are squares; the tolerance is compared on squares.
- Measures.DistPts.SweepRow: the inner loops of rt_dist2d_pre_seg_seg are methods of their own; so are the branches and repeated steps of the clip, the time search, removal of repeated times, the geohash bisection, the polygon writer, the cut of a line and the insertion into a point array.
- Sorting.Qsort: the C library's qsort is modelled as some sort; the order of equal keys, and a comparison function that never returns 0 (src/measures.c:1909-1914), are not.
- Measures3d.DistPts3d.SegSeg: a maximum search never compares segments in space, so this and what it calls are stated for the minimum.
- Distances to arcs, polygons, polygons with holes and collections, and the choice between fast path and brute force.
- OrdinateClip.ClipToOrdinateRange: clipping of points, multipoints, multilines and the offset variant; an ordinate letter other than X, Y, Z, M.
- Approach.Tcpa: inputs that are not lines. What the time means is promised for trajectories, whose measures increase (src/rtline.c:463-488); of other lines the refusals, -2 and the errors on measures are modelled. Boxes are exact, and the distance is always asked for.
- Approach.LocatedIsPosition: the sideways offset, which takes trigonometry.
- Rings.ContainsPointPartial: arcs.
- Geohash.DecodeGeohashBbox: a character outside the alphabet, on which the source would compute with a null pointer, is reported.
- Geohash: geohash_point_as_int, which breaks ties the other way.
- Polyline.PointArrayToEncodedPolyline: a difference that does not fit an int has no defined conversion in C; the model leaves an arbitrary int in its place, and the condition of the round trip does not depend on it. An empty point array, which the source would dereference.
- Iterator.PointIterator: point arrays keep their length while they are iterated; null pointers, freeing of nodes and the 32-bit range of the index.
- Serialized: words are little-endian and counts are read as unsigned. Sizes are unbounded numbers; a serialization is below 2^30 bytes by its size field, and then none of the 32-bit products of the source wraps.
- Serializer.FromGeomAny: an error raised by a writer ends the writing; the source's default error handler ends the program. A write past the buffer, which can follow from a mismatch in M, is reported as `Overrun`.
- Deserializer.GeomFromBuffer: data cut short is reported as `Truncated`; the source reads on. Vertices read are copies of the bytes, not read-only references to them.
- Envelope.FromGeom: a box is added by `Readback.FromRtgeom`; how the box of a geometry is computed is a parameter there.
- Envelope.FromSerialized: computing a missing box after reading (src/g_serialized.c:1299-1302).
- Shortcuts.PeekGbox: the geodetic box, and boxes of arcs in the decoded geometry.
- Split.SplitByPointTo: an empty line is given the answer the source states for it, although it reads a first vertex; an empty blade point is not modelled.
- Split.SplitByMPoint: after several points a piece may pass again through an earlier one; only the last point is promised to split no piece.
- Everything that calls GEOS, the topology backend, WKT, WKB, TWKB, KML and GeoJSON, geodetic and spherical computation, and memory management.
