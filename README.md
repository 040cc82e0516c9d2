# MultiPoint geometry, modelled and verified in Dafny

This project models OpenLayers' multi-point geometry (`src/ol/geom/MultiPoint.js`).
A multi-point owns one flat buffer of numbers and a layout (XY, XYZ, XYM or
XYZM). The layout fixes the stride: 2, 3, 3 or 4 components per vertex.
Vertex `i` occupies positions `[i * stride, (i + 1) * stride)` of the buffer.
Every operation works on that buffer window by window:

- append a point;
- clone;
- write structured coordinates into the buffer (deflate) and read them back (inflate);
- slice out one point or all points;
- find the nearest vertex, with pruning by the geometry's extent;
- test whether any vertex lies in a box.

Files:

- `wrappers.dfy`: `Option`. It models JavaScript's `null` and an unset buffer.
- `layouts.dfy`: the layouts, their strides, and the layout a coordinate list resolves to.
- `flat.dfy`: deflate (a method with loops that writes into a buffer) and inflate (a function that cuts the buffer into windows). It proves both round trips and how inflate splits over concatenation.
- `extents.dfy`: bounding boxes, inclusive containment, the squared distance from a point to a box, and the extent of a vertex list. Squared distances are `Distance`, a real or `Infinite`, because callers start the nearest search at `Infinity` and an empty extent's distance is `Infinity`.
- `multipoint.dfy`: the `MultiPoint` class and the nearest-vertex search.

### The `MultiPoint` class

Its fields are `layout`, `stride`, `flatCoordinates` (`None` until a buffer is set) and `revision`. The change notification is modelled by `revision`, which counts calls to `changed()`.

Each method is proved against a specification:

- `Vertices()` inflates the buffer.
- `GetExtent()` is the bounding box of the vertices.
- `SearchNearest` is a fold that defines the nearest-vertex result.

Lemmas about these functions state the promised properties:

- the search result is a minimum;
- the first closest vertex wins;
- pruning is sound;
- searching two geometries in turn is searching their union.

### Pruning

Line 64 prunes only when the running best is strictly below the squared
distance to the extent, so at equality the vertices are still scanned.
`SearchNearestPruned` proves this strict test sound: a pruned geometry has no
vertex strictly closer than the running best. Nothing in `MultiPoint.js`
checks that a flat buffer holds whole vertices; the model asks that of its
callers (see "Left out").

## Model

| member | source | states |
|---|---|---|
| Layouts.Stride | src/ol/geom/MultiPoint.js:68 | the stride is 2 to 4; it is 2 exactly for XY and 4 exactly for XYZM |
| Layouts.LayoutForStride | src/ol/geom/MultiPoint.js:160 | a vertex length gives a layout exactly when it is 2, 3 or 4; that layout has this stride and is never XYM |
| Layouts.LayoutForStrideInverts | src/ol/geom/MultiPoint.js:160 | every layout except XYM is recovered from its stride; XYM comes back as XYZ |
| Layouts.ResolveLayout | src/ol/geom/MultiPoint.js:160 | an explicit layout wins; an empty list gives XY; otherwise the first vertex's length decides, there is a layout exactly when that length is 2 to 4, and a length of 3 is read as XYZ, never XYM |
| FlatCoordinates.Truncated | src/ol/geom/MultiPoint.js:164-165 | one tuple per input tuple, holding its first `stride` components |
| FlatCoordinates.Flattened | src/ol/geom/MultiPoint.js:164-165 | deflated tuples take `stride` values each |
| FlatCoordinates.FlattenedWindow | src/ol/geom/MultiPoint.js:164-165 | window `i` of the deflated buffer is the first `stride` components of tuple `i` |
| FlatCoordinates.WriteAt | src/ol/geom/MultiPoint.js:75 | an element assignment overwrites one position, or appends at the end, and keeps every other element |
| FlatCoordinates.WriteAtEnd | src/ol/geom/MultiPoint.js:164-165 | one deflate write at the end offset extends the written part by that value and keeps the rest of the buffer |
| FlatCoordinates.DeflateCoordinates | src/ol/geom/MultiPoint.js:164-165 | deflate returns `offset + count * stride`; it writes the deflated tuples there, keeps the buffer before `offset` and after the end, and grows the buffer only as far as needed |
| FlatCoordinates.InflateCoordinates | src/ol/geom/MultiPoint.js:90-91 | inflate gives `(end - offset) / stride` tuples |
| FlatCoordinates.InflateWindow | src/ol/geom/MultiPoint.js:90-91 | inflated tuple `i` is exactly window `i` of the buffer |
| FlatCoordinates.InflatedTuplesFit | src/ol/geom/MultiPoint.js:90-91 | every inflated tuple has exactly `stride` components |
| FlatCoordinates.InflateFlattened | src/ol/geom/MultiPoint.js:164-165 | inflating deflated tuples gives each tuple cut to `stride` |
| FlatCoordinates.InflateDeflateRoundTrip | src/ol/geom/MultiPoint.js:159-167 | when every tuple has exactly `stride` components, inflate(deflate(tuples)) is the tuples |
| FlatCoordinates.InflateInjective | src/ol/geom/MultiPoint.js:90-91 | two buffers of equal length that inflate to the same tuples are equal |
| FlatCoordinates.FlattenedInflated | src/ol/geom/MultiPoint.js:164-165 | deflate(inflate(buffer)) is the buffer |
| FlatCoordinates.InflateFirstAt | src/ol/geom/MultiPoint.js:44 | after a buffer is extended, its old tuples are unchanged |
| FlatCoordinates.InflateSecondAt | src/ol/geom/MultiPoint.js:44 | after a buffer is extended, the tuples past the old ones are the appended buffer's tuples |
| FlatCoordinates.InflateAppendAt | src/ol/geom/MultiPoint.js:44 | each tuple of an extended buffer is the matching tuple of the old tuples followed by the appended ones |
| FlatCoordinates.InflateAppend | src/ol/geom/MultiPoint.js:44 | inflating `a + b` gives the tuples of `a` followed by those of `b`, and `a + b` still holds whole windows |
| FlatCoordinates.ScanWindow | src/ol/geom/MultiPoint.js:69 | a stride-stepped loop at `k * stride < length` reads a whole window, and that window is tuple `k` |
| FlatCoordinates.ScanDone | src/ol/geom/MultiPoint.js:69 | a stride-stepped loop ends after exactly as many steps as there are tuples |
| FlatCoordinates.InflateExampleByThree | src/ol/geom/MultiPoint.js:90-91 | the stride alone decides the grouping: `[1..6]` with stride 3 gives `[[1, 2, 3], [4, 5, 6]]` |
| FlatCoordinates.InflateExampleByTwo | src/ol/geom/MultiPoint.js:90-91 | the same buffer with stride 2 gives `[[1, 2], [3, 4], [5, 6]]` |
| Extents.Less | src/ol/geom/MultiPoint.js:72 | JavaScript `<` on squared distances: only a finite value can be below another, every finite value is below `Infinity`, and finite values compare as reals |
| Extents.ContainsXY | src/ol/geom/MultiPoint.js:145 | inclusive containment of `(x, y)` in a box; the empty extent contains nothing |
| Extents.SquaredDistance | src/ol/geom/MultiPoint.js:70-71 | the squared distance is never negative and is zero for the same point |
| Extents.ClosestSquaredDistanceXY | src/ol/geom/MultiPoint.js:64 | the distance to a box is infinite exactly for the empty extent, never negative, and zero for a point inside the box |
| Extents.ClosestSquaredDistanceIsAttained | src/ol/geom/MultiPoint.js:64 | the distance to a non-empty box is the squared distance to the clamped point, which lies in the box |
| Extents.ClosestSquaredDistanceIsLowerBound | src/ol/geom/MultiPoint.js:64 | the distance to a box is at most the squared distance to any point inside it |
| Extents.ExtendXY | src/ol/geom/MultiPoint.js:64 | extending a box by a point gives the smallest box containing both |
| Extents.ExtentOf | src/ol/geom/MultiPoint.js:64 | the extent is empty exactly when there are no vertices; otherwise each minimum is at most its maximum |
| Extents.ExtentContainsVertices | src/ol/geom/MultiPoint.js:64 | every vertex's `(x, y)` lies in the extent |
| Extents.ExtentIsSmallest | src/ol/geom/MultiPoint.js:64 | any box that contains every vertex contains the extent |
| Extents.ExtentGrows | src/ol/geom/MultiPoint.js:40-46 | appending a vertex gives an extent that contains the old extent and the new vertex |
| Extents.ExtentBoundsVertexDistance | src/ol/geom/MultiPoint.js:64-66 | no vertex is closer than the distance to the extent |
| MultiPointGeometry.TakesFlat | src/ol/geom/MultiPoint.js:28 | the constructor takes the flat path only with a layout; a non-empty list of tuples never takes it; a flat buffer with a layout always does |
| MultiPointGeometry.Visit | src/ol/geom/MultiPoint.js:70-78 | one loop step: the new best is at most the old best and at most this vertex's distance; when it changes, it is this vertex with its distance, strictly below the old best |
| MultiPointGeometry.SearchNearest | src/ol/geom/MultiPoint.js:69-79 | the loop as a fold over the vertices in buffer order; its result is never above the starting distance |
| MultiPointGeometry.SearchNearestConcat | src/ol/geom/MultiPoint.js:63-81 | searching one vertex list and then another, with the best carried over, equals searching the two lists end to end |
| MultiPointGeometry.SearchNearestIsMinimum | src/ol/geom/MultiPoint.js:67-80 | the result is at most the starting distance and at most every vertex's squared distance |
| MultiPointGeometry.SearchNearestKeepsBest | src/ol/geom/MultiPoint.js:72-78 | when the distance is not lowered, the starting point and distance come back untouched |
| MultiPointGeometry.SearchNearestFindsFirst | src/ol/geom/MultiPoint.js:72-78 | when the distance is lowered, the result is a whole vertex with its distance, and every earlier vertex is strictly farther |
| MultiPointGeometry.SearchNearestNoCloser | src/ol/geom/MultiPoint.js:72 | when no vertex is strictly closer than the starting best, the search returns the starting best |
| MultiPointGeometry.SearchNearestPruned | src/ol/geom/MultiPoint.js:64-66 | when the running best is strictly below the extent's distance, the full search would return it unchanged |
| MultiPointGeometry.SearchStep | src/ol/geom/MultiPoint.js:69-79 | searching from vertex `k` is visiting vertex `k` and then searching from `k + 1` |
| MultiPointGeometry.SearchWindowStep | src/ol/geom/MultiPoint.js:69-79 | the loop step at window `k` of the buffer is the search's visit of vertex `k` |
| MultiPointGeometry.VisitWindow | src/ol/geom/MultiPoint.js:70-78 | one loop step: a strictly closer vertex replaces the best distance, and its `stride` components are copied over the best point, which is then cut to length `stride`; otherwise nothing changes |
| MultiPointGeometry.ScanNearest | src/ol/geom/MultiPoint.js:67-80 | the stride-stepped loop over the buffer returns exactly the nearest-vertex search over the inflated vertices, from the caller's best |
| MultiPointGeometry.OnePointInflates | src/ol/geom/MultiPoint.js:40-46 | a point's buffer is exactly one whole vertex |
| MultiPointGeometry.MultiPoint.Vertices | src/ol/geom/MultiPoint.js:89-92 | the inflated buffer: `length / stride` vertices, each with `stride` components and so an `(x, y)`; that vertex `i` is window `i` is stated by `InflateWindow` and `GetCoordinates` |
| MultiPointGeometry.MultiPoint.GetExtent | src/ol/geom/MultiPoint.js:64 | the extent of the vertices: empty exactly when there are no vertices, and containing every vertex's `(x, y)` |
| MultiPointGeometry.MultiPoint.Count | src/ol/geom/MultiPoint.js:101 | `n` is the number of vertices, zero without a buffer, and `n * stride` is the buffer's length |
| MultiPointGeometry.MultiPoint.constructor | src/ol/geom/MultiPoint.js:26-33 | with a layout and a non-tuple input, the buffer and layout are stored as given; otherwise the tuples are deflated under the resolved layout; the length stays a multiple of the stride |
| MultiPointGeometry.MultiPoint.Changed | src/ol/geom/MultiPoint.js:46 | each change notification advances the revision by one |
| MultiPointGeometry.MultiPoint.SetFlatCoordinates | src/ol/geom/MultiPoint.js:29 | the buffer and layout are stored as given, and the stride follows the layout |
| MultiPointGeometry.MultiPoint.AppendPoint | src/ol/geom/MultiPoint.js:40-46 | the buffer becomes the old buffer (none counts as empty) followed by the point's values; the vertices gain the point; the extent grows; the length stays a multiple of the stride; one change is notified |
| MultiPointGeometry.MultiPoint.Clone | src/ol/geom/MultiPoint.js:55-58 | the clone is a fresh object with an equal buffer and the same layout and stride |
| MultiPointGeometry.CloneThenAppend | src/ol/geom/MultiPoint.js:55-58 | appending to a clone grows the clone by the point and leaves the original's buffer unchanged |
| MultiPointGeometry.MultiPoint.ClosestPointXY | src/ol/geom/MultiPoint.js:63-81 | when pruned, the caller's point and distance come back unchanged; in every case the result is the nearest-vertex search over all vertices from the caller's best |
| MultiPointGeometry.ClosestAcross | src/ol/geom/MultiPoint.js:63-81 | asking two geometries in turn equals searching the union of their vertices, and the result is never above the starting distance |
| MultiPointGeometry.TwoVertexExample | src/ol/geom/MultiPoint.js:63-81 | for `[[0, 0], [3, 4]]`: the extent is `[0, 0, 3, 4]`; the nearest vertex to `(1, 1)` from infinity is `[0, 0]` at 2; the box `[2, 2, 5, 5]` intersects and `[10, 10, 20, 20]` does not |
| MultiPointGeometry.MultiPoint.GetCoordinates | src/ol/geom/MultiPoint.js:89-92 | `length / stride` tuples, where tuple `i` is window `i` of the buffer |
| MultiPointGeometry.MultiPoint.GetPoint | src/ol/geom/MultiPoint.js:100-107 | null exactly when the index is negative or not below the vertex count (zero without a buffer); otherwise a point of the same layout whose values are window `index` |
| MultiPointGeometry.MultiPoint.GetPoints | src/ol/geom/MultiPoint.js:114-125 | one point per vertex, in buffer order; point `i` has the layout and window `i` |
| MultiPointGeometry.MultiPoint.IntersectsExtent | src/ol/geom/MultiPoint.js:139-150 | true exactly when some vertex's `(x, y)` lies in the box, bounds included |
| MultiPointGeometry.MultiPoint.SetCoordinates | src/ol/geom/MultiPoint.js:159-167 | the layout is resolved and the buffer becomes exactly the deflated tuples, cut to the new length; getCoordinates then returns the tuples cut to `stride`, or the tuples themselves when each has `stride` components; one change is notified |

## Left out

- `getType` (line 131-133) returns a constant and is not modelled.
- `changed()` dispatches events through the observable machinery. It is modelled only as the `revision` counter.
- Extent caching is not modelled: `GetExtent()` is always computed from the vertices.
- JavaScript numbers are IEEE doubles. The model uses mathematical reals, with `Distance.Infinite` standing for `Infinity`; NaN, rounding and overflow are not modelled.
- `SimpleGeometry`, `Point`, `geom/flat/deflate.js`, `geom/flat/inflate.js`, `extent.js`, `math.js` and `array.js` are not part of this model. Their helpers are modelled only by the meaning `MultiPoint.js` relies on.
- `src/ol/style/Image.js` and `src/ol/interaction/DragRotate.js` are not part of this model: one is a property bag and the other is pointer-event glue.
- Aliasing is not modelled. `Point` is a value, and results are values rather than live arrays.
- MultiPointGeometry.MultiPoint.ClosestPointXY: the caller's `closestPoint` array is taken as a value and the updated value is returned, instead of being overwritten in place. The method requires a buffer; without one the source throws, because computing the extent on line 64 reads the buffer before any pruning.
- MultiPointGeometry.MultiPoint.GetCoordinates: requires a buffer; the source would throw on a missing one. The same goes for `GetPoints`, `IntersectsExtent` and `Clone`.
- MultiPointGeometry.CloneThenAppend: buffers are sequence values, so buffer sharing is not modelled and the clone's independence holds by construction. In the source it depends on copying: line 29 stores the caller's array as it is, while lines 42 and 56 copy with `slice()`.
- MultiPointGeometry.MultiPoint.GetPoint: the index is an integer. The source also accepts fractional JavaScript numbers and divides with floating point.
- MultiPointGeometry.MultiPoint.AppendPoint: requires the point's stride to equal the geometry's. The source does not check this, and a point of another stride would break the whole-windows invariant.
- MultiPointGeometry.MultiPoint.SetCoordinates: requires the layout to resolve, and every tuple to carry at least `stride` components. Without an explicit layout, a first vertex whose length is not 2 to 4 has no layout value in the model, so it is excluded. What the source then does is not modelled: the geometry gets an undefined layout with a stride equal to that length, and a stride of 0 or 1 breaks the stride-stepped loops. A tuple that is too short makes the source write `undefined` into the buffer.
- MultiPointGeometry.MultiPoint.constructor: requires a flat buffer's length to be a multiple of the layout's stride. The source stores any buffer unchecked.
- Layouts.ResolveLayout: a first vertex of any length other than 2 to 4 gives no layout, because no layout value stands for "undefined". The source keeps an undefined layout with a stride equal to that length; that geometry is not modelled.
