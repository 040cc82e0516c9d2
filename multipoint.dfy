/**
 * The multi-point geometry: any number of vertices of one layout, stored in
 * a single flat buffer of `stride` components per vertex, with structured
 * accessors built on inflate/deflate and two spatial queries (nearest vertex
 * and extent intersection) that walk the buffer window by window.
 */
module MultiPointGeometry {
  import opened Wrappers
  import opened Layouts
  import opened FlatCoordinates
  import opened Extents

  /** A single-vertex geometry; the multi-point hands these out and takes them in. */
  datatype Point = Point(layout: GeometryLayout, flatCoordinates: seq<real>)

  /** A well-formed point: its buffer holds exactly one vertex of its layout. */
  predicate IsPoint(p: Point)
  {
    |p.flatCoordinates| == Stride(p.layout)
  }

  /** The constructor's input: a list of coordinate tuples, or an already flat buffer. */
  datatype CoordinateInput = Tuples(tuples: seq<seq<real>>) | FlatValues(values: seq<real>)

  /**
   * The constructor stores the input as a flat buffer when a layout is given
   * and the input's first element is not a tuple (a flat buffer, or an empty list).
   */
  predicate TakesFlat(input: CoordinateInput, optLayout: Option<GeometryLayout>)
    ensures TakesFlat(input, optLayout) ==> optLayout.Some?
    ensures input.Tuples? && |input.tuples| > 0 ==> !TakesFlat(input, optLayout)
    ensures input.FlatValues? && optLayout.Some? ==> TakesFlat(input, optLayout)
  {
    optLayout.Some? && !(input.Tuples? && |input.tuples| > 0)
  }

  /** The input read as a flat buffer (an empty list of tuples is an empty buffer). */
  function FlatPart(input: CoordinateInput): seq<real>
  {
    if input.FlatValues? then input.values else []
  }

  /** The input read as a list of tuples (an empty flat buffer is an empty list). */
  function TuplePart(input: CoordinateInput): seq<seq<real>>
  {
    if input.Tuples? then input.tuples else []
  }

  /**
   * Inputs the constructor can build a geometry from: a flat buffer of whole
   * vertices of the given layout, or tuples whose layout resolves and that
   * each carry at least a stride's worth of components.
   */
  predicate Accepts(input: CoordinateInput, optLayout: Option<GeometryLayout>)
  {
    if TakesFlat(input, optLayout) then
      |FlatPart(input)| % Stride(optLayout.value) == 0
    else
      (input.FlatValues? ==> input.values == []) &&
      ResolveLayout(optLayout, TuplePart(input)).Some? &&
      Fits(TuplePart(input), Stride(ResolveLayout(optLayout, TuplePart(input)).value))
  }

  /** The running best of a nearest-vertex search: the vertex found so far and its squared distance. */
  datatype Nearest = Nearest(point: seq<real>, squaredDistance: Distance)

  /** Squared planar distance from `(x, y)` to the vertex's `(x, y)`. */
  function VertexDistance(x: real, y: real, v: seq<real>): real
    requires 2 <= |v|
  {
    SquaredDistance(x, y, v[0], v[1])
  }

  /** One step of the search: a strictly closer vertex becomes the best, with all its components. */
  function Visit(x: real, y: real, best: Nearest, v: seq<real>): (r: Nearest)
    requires 2 <= |v|
    ensures AtMost(r.squaredDistance, best.squaredDistance)
    ensures AtMost(r.squaredDistance, Finite(VertexDistance(x, y, v)))
    ensures r != best ==>
              r == Nearest(v, Finite(VertexDistance(x, y, v))) && Less(r.squaredDistance, best.squaredDistance)
  {
    var d := VertexDistance(x, y, v);
    if Less(Finite(d), best.squaredDistance) then Nearest(v, Finite(d)) else best
  }

  /** The nearest-vertex search over a list of vertices, first to last. */
  function SearchNearest(x: real, y: real, vertices: seq<seq<real>>, best: Nearest): (r: Nearest)
    requires HasXY(vertices)
    ensures AtMost(r.squaredDistance, best.squaredDistance)
  {
    if vertices == [] then best
    else SearchNearest(x, y, vertices[1..], Visit(x, y, best, vertices[0]))
  }

  /**
   * Searching two vertex lists one after the other gives the same best as
   * searching the two lists laid end to end.
   */
  lemma {:induction false} SearchNearestConcat(x: real, y: real, a: seq<seq<real>>, b: seq<seq<real>>, best: Nearest)
    requires HasXY(a) && HasXY(b)
    ensures HasXY(a + b)
    ensures SearchNearest(x, y, a + b, best) == SearchNearest(x, y, b, SearchNearest(x, y, a, best))
  {
    if a != [] {
      assert (a + b)[1..] == a[1..] + b;
      SearchNearestConcat(x, y, a[1..], b, Visit(x, y, best, a[0]));
    } else {
      assert a + b == b;
    }
  }

  /** The search result is no farther than the starting best, nor than any vertex. */
  lemma {:induction false} SearchNearestIsMinimum(x: real, y: real, vertices: seq<seq<real>>, best: Nearest)
    requires HasXY(vertices)
    ensures AtMost(SearchNearest(x, y, vertices, best).squaredDistance, best.squaredDistance)
    ensures forall i :: 0 <= i < |vertices| ==>
              AtMost(SearchNearest(x, y, vertices, best).squaredDistance, Finite(VertexDistance(x, y, vertices[i])))
  {
    if vertices != [] {
      var next := Visit(x, y, best, vertices[0]);
      SearchNearestIsMinimum(x, y, vertices[1..], next);
      forall i | 0 < i < |vertices|
        ensures AtMost(SearchNearest(x, y, vertices, best).squaredDistance, Finite(VertexDistance(x, y, vertices[i])))
      {
        assert vertices[1..][i - 1] == vertices[i];
      }
    }
  }

  /** When the search does not lower the distance, the starting best comes back untouched. */
  lemma {:induction false} SearchNearestKeepsBest(x: real, y: real, vertices: seq<seq<real>>, best: Nearest)
    requires HasXY(vertices)
    requires !Less(SearchNearest(x, y, vertices, best).squaredDistance, best.squaredDistance)
    ensures SearchNearest(x, y, vertices, best) == best
  {
    if vertices != [] {
      var next := Visit(x, y, best, vertices[0]);
      SearchNearestIsMinimum(x, y, vertices[1..], next);
      SearchNearestKeepsBest(x, y, vertices[1..], next);
    }
  }

  /**
   * When the search lowers the distance, the result is the first vertex that
   * reaches the new minimum, with all its components: every earlier vertex is
   * strictly farther.
   */
  lemma {:induction false} SearchNearestFindsFirst(x: real, y: real, vertices: seq<seq<real>>, best: Nearest)
    returns (k: nat)
    requires HasXY(vertices)
    requires Less(SearchNearest(x, y, vertices, best).squaredDistance, best.squaredDistance)
    ensures k < |vertices|
    ensures SearchNearest(x, y, vertices, best) == Nearest(vertices[k], Finite(VertexDistance(x, y, vertices[k])))
    ensures forall j :: 0 <= j < k ==>
              Less(SearchNearest(x, y, vertices, best).squaredDistance, Finite(VertexDistance(x, y, vertices[j])))
  {
    var r := SearchNearest(x, y, vertices, best);
    var next := Visit(x, y, best, vertices[0]);
    if Less(r.squaredDistance, next.squaredDistance) {
      var k' := SearchNearestFindsFirst(x, y, vertices[1..], next);
      k := k' + 1;
      forall j | 0 <= j < k
        ensures Less(r.squaredDistance, Finite(VertexDistance(x, y, vertices[j])))
      {
        if j > 0 {
          assert vertices[1..][j - 1] == vertices[j];
        }
      }
    } else {
      SearchNearestKeepsBest(x, y, vertices[1..], next);
      k := 0;
    }
  }

  /** A search where no vertex is strictly closer than the starting best changes nothing. */
  lemma {:induction false} SearchNearestNoCloser(x: real, y: real, vertices: seq<seq<real>>, best: Nearest)
    requires HasXY(vertices)
    requires forall i :: 0 <= i < |vertices| ==> !Less(Finite(VertexDistance(x, y, vertices[i])), best.squaredDistance)
    ensures SearchNearest(x, y, vertices, best) == best
  {
    if vertices != [] {
      assert forall i :: 0 <= i < |vertices| - 1 ==> vertices[1..][i] == vertices[i + 1];
      SearchNearestNoCloser(x, y, vertices[1..], best);
    }
  }

  /**
   * Pruning is sound: when the starting best is strictly below the squared
   * distance to the vertices' extent, the full search would return it unchanged.
   */
  lemma {:induction false} SearchNearestPruned(x: real, y: real, vertices: seq<seq<real>>, best: Nearest)
    requires HasXY(vertices)
    requires Less(best.squaredDistance, ClosestSquaredDistanceXY(ExtentOf(vertices), x, y))
    ensures SearchNearest(x, y, vertices, best) == best
  {
    forall i | 0 <= i < |vertices|
      ensures !Less(Finite(VertexDistance(x, y, vertices[i])), best.squaredDistance)
    {
      ExtentBoundsVertexDistance(vertices, x, y, i);
    }
    SearchNearestNoCloser(x, y, vertices, best);
  }

  /** Searching from vertex `k` on is visiting vertex `k`, then searching from `k + 1` on. */
  lemma {:induction false} SearchStep(x: real, y: real, vertices: seq<seq<real>>, k: nat, best: Nearest)
    requires HasXY(vertices) && k < |vertices|
    ensures SearchNearest(x, y, vertices[k..], best)
            == SearchNearest(x, y, vertices[k + 1..], Visit(x, y, best, vertices[k]))
  {
    assert vertices[k..][1..] == vertices[k + 1..];
  }

  /** One step of a stride-stepped search: the window at `k * stride` is vertex `k`, visited next. */
  lemma {:induction false} SearchWindowStep(x: real, y: real, flat: seq<real>, stride: nat, k: nat, best: Nearest)
    requires 0 < stride && |flat| % stride == 0 && k * stride < |flat|
    requires HasXY(InflateCoordinates(flat, 0, |flat|, stride))
    ensures k < |InflateCoordinates(flat, 0, |flat|, stride)|
    ensures k * stride + stride <= |flat| && 2 <= stride
    ensures SearchNearest(x, y, InflateCoordinates(flat, 0, |flat|, stride)[k..], best)
            == SearchNearest(x, y, InflateCoordinates(flat, 0, |flat|, stride)[k + 1..],
                             Visit(x, y, best, flat[k * stride..k * stride + stride]))
  {
    var vertices := InflateCoordinates(flat, 0, |flat|, stride);
    ScanWindow(flat, stride, k);
    SearchStep(x, y, vertices, k, best);
  }

  /**
   * One iteration of the nearest-vertex loop over the vertex stored at
   * `flat[i..i + stride]`: when it is strictly closer, its distance becomes
   * the best and its components are copied over the best point, one by one.
   */
  method VisitWindow(x: real, y: real, flat: seq<real>, i: nat, stride: nat,
                     closestPoint: seq<real>, minSquaredDistance: Distance)
    returns (point: seq<real>, squaredDistance: Distance)
    requires 2 <= stride && i + stride <= |flat|
    ensures Nearest(point, squaredDistance)
            == Visit(x, y, Nearest(closestPoint, minSquaredDistance), flat[i..i + stride])
  {
    point, squaredDistance := closestPoint, minSquaredDistance;
    var d := SquaredDistance(x, y, flat[i], flat[i + 1]);
    if Less(Finite(d), squaredDistance) {
      squaredDistance := Finite(d);
      var j := 0;
      while j < stride
        invariant j <= stride && j <= |point|
        invariant forall m :: 0 <= m < j ==> point[m] == flat[i + m]
      {
        point := WriteAt(point, j, flat[i + j]);
        j := j + 1;
      }
      point := point[..stride];
      assert point == flat[i..i + stride];
    }
  }

  /**
   * The unpruned part of the nearest-vertex query: a stride-stepped loop over
   * the buffer that visits every vertex in order, so its result is the search
   * over the inflated vertices.
   */
  method ScanNearest(x: real, y: real, flat: seq<real>, stride: nat,
                     closestPoint: seq<real>, minSquaredDistance: Distance)
    returns (point: seq<real>, squaredDistance: Distance)
    requires 2 <= stride && |flat| % stride == 0
    requires HasXY(InflateCoordinates(flat, 0, |flat|, stride))
    ensures Nearest(point, squaredDistance)
            == SearchNearest(x, y, InflateCoordinates(flat, 0, |flat|, stride), Nearest(closestPoint, minSquaredDistance))
  {
    point, squaredDistance := closestPoint, minSquaredDistance;
    ghost var vertices := InflateCoordinates(flat, 0, |flat|, stride);
    ghost var start := Nearest(closestPoint, minSquaredDistance);
    var i := 0;
    ghost var k := 0;
    while i < |flat|
      invariant k <= |vertices| && i == k * stride
      invariant SearchNearest(x, y, vertices[k..], Nearest(point, squaredDistance))
                == SearchNearest(x, y, vertices, start)
    {
      SearchWindowStep(x, y, flat, stride, k, Nearest(point, squaredDistance));
      point, squaredDistance := VisitWindow(x, y, flat, i, stride, point, squaredDistance);
      NextWindowFits(k, |vertices|, stride);
      i := i + stride;
      k := k + 1;
    }
    ScanDone(flat, stride, k);
    assert vertices[k..] == [];
  }

  /**
   * A multi-point geometry. `flatCoordinates` is `None` before any buffer is
   * set; `revision` counts the change notifications that invalidate the
   * cached extent.
   */
  class MultiPoint {
    var layout: GeometryLayout
    var stride: nat
    var flatCoordinates: Option<seq<real>>
    var revision: nat

    /** The stride matches the layout and the buffer holds whole vertices only. */
    ghost predicate Valid()
      reads this
    {
      stride == Stride(layout) &&
      (flatCoordinates.Some? ==> |flatCoordinates.value| % stride == 0)
    }

    /** The buffer, with a missing buffer read as an empty one. */
    function Buffer(): seq<real>
      reads this
    {
      if flatCoordinates.Some? then flatCoordinates.value else []
    }

    /** The vertices held in the buffer: vertex `i` is window `i`. */
    function Vertices(): (vertices: seq<seq<real>>)
      reads this
      requires Valid()
      ensures |vertices| * stride == |Buffer()|
      ensures forall i :: 0 <= i < |vertices| ==> |vertices[i]| == stride
      ensures HasXY(vertices)
    {
      InflatedTuplesFit(Buffer(), stride);
      InflateCoordinates(Buffer(), 0, |Buffer()|, stride)
    }

    /** The bounding box of the vertices' `(x, y)`. */
    function GetExtent(): (extent: Extent)
      reads this
      requires Valid()
      ensures extent.Empty? <==> Count() == 0
      ensures forall i :: 0 <= i < |Vertices()| ==> ContainsXY(extent, Vertices()[i][0], Vertices()[i][1])
    {
      var vertices := Vertices();
      assert forall i :: 0 <= i < |vertices| ==> ContainsXY(ExtentOf(vertices), vertices[i][0], vertices[i][1]) by {
        forall i | 0 <= i < |vertices|
          ensures ContainsXY(ExtentOf(vertices), vertices[i][0], vertices[i][1])
        {
          ExtentContainsVertices(vertices, i);
        }
      }
      ExtentOf(vertices)
    }

    /** Number of vertices: zero when there is no buffer. */
    function Count(): (n: nat)
      reads this
      requires Valid()
      ensures n == |Vertices()|
      ensures n * stride == |Buffer()|
    {
      WindowCount(|Vertices()|, stride);
      if flatCoordinates.None? then 0 else |flatCoordinates.value| / stride
    }

    /**
     * Builds the geometry from tuples, deflated under their resolved layout,
     * or, when a layout is given and the input is not a list of tuples, from
     * the flat buffer as it is.
     */
    constructor(coordinates: CoordinateInput, optLayout: Option<GeometryLayout>)
      requires Accepts(coordinates, optLayout)
      ensures Valid() && flatCoordinates.Some?
      ensures TakesFlat(coordinates, optLayout) ==>
                layout == optLayout.value && flatCoordinates == Some(FlatPart(coordinates)) && revision == 0
      ensures !TakesFlat(coordinates, optLayout) ==>
                layout == ResolveLayout(optLayout, TuplePart(coordinates)).value &&
                flatCoordinates == Some(Flattened(TuplePart(coordinates), stride)) &&
                Vertices() == Truncated(TuplePart(coordinates), stride) &&
                revision == 1
    {
      layout, stride, flatCoordinates, revision := XY, 2, None, 0;
      new;
      if TakesFlat(coordinates, optLayout) {
        SetFlatCoordinates(optLayout.value, FlatPart(coordinates));
      } else {
        SetCoordinates(TuplePart(coordinates), optLayout);
      }
    }

    /** Marks the geometry as changed, so that derived state such as the extent is recomputed. */
    method Changed()
      modifies this`revision
      ensures revision == old(revision) + 1
    {
      revision := revision + 1;
    }

    /** Stores a flat buffer and its layout as they are, without deflating. */
    method SetFlatCoordinates(newLayout: GeometryLayout, flat: seq<real>)
      requires |flat| % Stride(newLayout) == 0
      modifies this
      ensures Valid()
      ensures layout == newLayout && flatCoordinates == Some(flat) && revision == old(revision)
    {
      layout := newLayout;
      stride := Stride(newLayout);
      flatCoordinates := Some(flat);
    }

    /**
     * Appends the point's vertex: the buffer becomes the old one followed by
     * the point's components, or a copy of the point's buffer when there was none.
     */
    method AppendPoint(point: Point)
      requires Valid() && IsPoint(point) && Stride(point.layout) == stride
      modifies this
      ensures Valid() && layout == old(layout) && stride == old(stride)
      ensures flatCoordinates == Some(old(Buffer()) + point.flatCoordinates)
      ensures Vertices() == old(Vertices()) + [point.flatCoordinates]
      ensures ContainsExtent(GetExtent(), old(GetExtent()))
      ensures revision == old(revision) + 1
    {
      ghost var before := Buffer();
      ghost var vertices := Vertices();
      if flatCoordinates.None? {
        flatCoordinates := Some(point.flatCoordinates);
      } else {
        flatCoordinates := Some(flatCoordinates.value + point.flatCoordinates);
      }
      assert Buffer() == before + point.flatCoordinates;
      InflateAppend(before, point.flatCoordinates, stride);
      OnePointInflates(point.flatCoordinates, stride);
      ExtentGrows(vertices, point.flatCoordinates);
      Changed();
    }

    /** A new geometry with an equal buffer and the same layout. */
    method Clone() returns (c: MultiPoint)
      requires Valid() && flatCoordinates.Some?
      ensures fresh(c) && c.Valid()
      ensures c.layout == layout && c.stride == stride && c.flatCoordinates == flatCoordinates
      ensures c.revision == 0
    {
      c := new MultiPoint(FlatValues(flatCoordinates.value), Some(layout));
    }

    /**
     * The nearest-vertex query. Returns the caller's best unchanged when the
     * extent is already strictly farther; otherwise folds every vertex into it.
     * Either way the result is the full search's.
     */
    method ClosestPointXY(x: real, y: real, closestPoint: seq<real>, minSquaredDistance: Distance)
      returns (point: seq<real>, squaredDistance: Distance)
      requires Valid() && flatCoordinates.Some?
      ensures Less(minSquaredDistance, ClosestSquaredDistanceXY(GetExtent(), x, y)) ==>
                point == closestPoint && squaredDistance == minSquaredDistance
      ensures Nearest(point, squaredDistance)
              == SearchNearest(x, y, Vertices(), Nearest(closestPoint, minSquaredDistance))
    {
      point, squaredDistance := closestPoint, minSquaredDistance;
      ghost var vertices := Vertices();
      ghost var start := Nearest(closestPoint, minSquaredDistance);
      if Less(minSquaredDistance, ClosestSquaredDistanceXY(GetExtent(), x, y)) {
        SearchNearestPruned(x, y, vertices, start);
        return;
      }
      point, squaredDistance := ScanNearest(x, y, flatCoordinates.value, stride, point, squaredDistance);
    }

    /** The vertices as coordinate tuples, in buffer order. */
    function GetCoordinates(): (coordinates: seq<seq<real>>)
      reads this
      requires Valid() && flatCoordinates.Some?
      ensures |coordinates| == Count()
      ensures forall i :: 0 <= i < |coordinates| ==>
                (i + 1) * stride <= |flatCoordinates.value| &&
                coordinates[i] == flatCoordinates.value[i * stride..(i + 1) * stride]
    {
      var flat := flatCoordinates.value;
      var vertices := Vertices();
      WindowCount(|vertices|, stride);
      assert forall i :: 0 <= i < |vertices| ==>
               (i + 1) * stride <= |flat| && vertices[i] == flat[i * stride..(i + 1) * stride] by {
        forall i | 0 <= i < |vertices|
          ensures (i + 1) * stride <= |flat| && vertices[i] == flat[i * stride..(i + 1) * stride]
        {
          InflateWindow(flat, 0, |flat|, stride, i);
        }
      }
      vertices
    }

    /**
     * The point at `index`, or `None` when the index is negative or not below
     * the number of vertices (zero when there is no buffer).
     */
    method GetPoint(index: int) returns (p: Option<Point>)
      requires Valid()
      ensures p.None? <==> index < 0 || Count() <= index
      ensures p.Some? ==>
                IsPoint(p.value) && p.value.layout == layout &&
                (index + 1) * stride <= |Buffer()| &&
                p.value.flatCoordinates == Buffer()[index * stride..(index + 1) * stride] &&
                p.value.flatCoordinates == Vertices()[index]
    {
      var n := if flatCoordinates.None? then 0 else |flatCoordinates.value| / stride;
      if index < 0 || n <= index {
        return None;
      }
      WindowCount(|Vertices()|, stride);
      InflateWindow(Buffer(), 0, |Buffer()|, stride, index);
      p := Some(Point(layout, flatCoordinates.value[index * stride..(index + 1) * stride]));
    }

    /** One point per vertex, in buffer order. */
    method GetPoints() returns (points: seq<Point>)
      requires Valid() && flatCoordinates.Some?
      ensures |points| == Count()
      ensures forall i :: 0 <= i < |points| ==>
                IsPoint(points[i]) && points[i] == Point(layout, Vertices()[i])
    {
      ghost var vertices := Vertices();
      WindowCount(|vertices|, stride);
      var flat := flatCoordinates.value;
      assert vertices == InflateCoordinates(flat, 0, |flat|, stride);
      points := [];
      var i := 0;
      while i < |flat|
        invariant |points| <= |vertices| && i == |points| * stride
        invariant forall j :: 0 <= j < |points| ==> IsPoint(points[j]) && points[j] == Point(layout, vertices[j])
      {
        ScanWindow(flat, stride, |points|);
        var point := Point(layout, flat[i..i + stride]);
        NextWindowFits(|points|, |vertices|, stride);
        points := points + [point];
        i := i + stride;
      }
      ScanDone(flat, stride, |points|);
    }

    /**
     * Whether some vertex's `(x, y)` lies in the extent, bounds included;
     * the scan stops at the first one that does.
     */
    method IntersectsExtent(extent: Extent) returns (b: bool)
      requires Valid() && flatCoordinates.Some?
      ensures b <==> exists i :: 0 <= i < |Vertices()| && ContainsXY(extent, Vertices()[i][0], Vertices()[i][1])
    {
      ghost var vertices := Vertices();
      var flat := flatCoordinates.value;
      assert vertices == InflateCoordinates(flat, 0, |flat|, stride);
      var i := 0;
      ghost var k := 0;
      while i < |flat|
        invariant k <= |vertices| && i == k * stride
        invariant forall j :: 0 <= j < k ==> !ContainsXY(extent, vertices[j][0], vertices[j][1])
      {
        ScanWindow(flat, stride, k);
        var x, y := flat[i], flat[i + 1];
        if ContainsXY(extent, x, y) {
          assert x == vertices[k][0] && y == vertices[k][1];
          assert ContainsXY(extent, Vertices()[k][0], Vertices()[k][1]);
          return true;
        }
        NextWindowFits(k, |vertices|, stride);
        i := i + stride;
        k := k + 1;
      }
      ScanDone(flat, stride, k);
      return false;
    }

    /**
     * Replaces the coordinates: the layout is resolved from the arguments and
     * the tuples are deflated into the buffer, which is cut to the new length.
     */
    method SetCoordinates(coordinates: seq<seq<real>>, optLayout: Option<GeometryLayout>)
      requires ResolveLayout(optLayout, coordinates).Some?
      requires Fits(coordinates, Stride(ResolveLayout(optLayout, coordinates).value))
      modifies this
      ensures Valid() && flatCoordinates.Some?
      ensures layout == ResolveLayout(optLayout, coordinates).value
      ensures flatCoordinates.value == Flattened(coordinates, stride)
      ensures Vertices() == Truncated(coordinates, stride)
      ensures (forall i :: 0 <= i < |coordinates| ==> |coordinates[i]| == stride) ==>
                GetCoordinates() == coordinates
      ensures revision == old(revision) + 1
    {
      layout := ResolveLayout(optLayout, coordinates).value;
      stride := Stride(layout);
      if flatCoordinates.None? {
        flatCoordinates := Some([]);
      }
      var buffer, end := DeflateCoordinates(flatCoordinates.value, 0, coordinates, stride);
      flatCoordinates := Some(buffer[..end]);
      InflateFlattened(coordinates, stride);
      if forall i :: 0 <= i < |coordinates| ==> |coordinates[i]| == stride {
        InflateDeflateRoundTrip(coordinates, stride);
      }
      Changed();
    }
  }

  /**
   * The accumulator use of the nearest-vertex query: asking one geometry and
   * then another, passing the running best along, finds the same vertex and
   * distance as one search over the vertices of both, pruned or not.
   */
  method ClosestAcross(a: MultiPoint, b: MultiPoint, x: real, y: real,
                       closestPoint: seq<real>, minSquaredDistance: Distance)
    returns (point: seq<real>, squaredDistance: Distance)
    requires a.Valid() && a.flatCoordinates.Some? && b.Valid() && b.flatCoordinates.Some?
    ensures HasXY(a.Vertices() + b.Vertices())
    ensures Nearest(point, squaredDistance)
            == SearchNearest(x, y, a.Vertices() + b.Vertices(), Nearest(closestPoint, minSquaredDistance))
    ensures AtMost(squaredDistance, minSquaredDistance)
  {
    var p, d := a.ClosestPointXY(x, y, closestPoint, minSquaredDistance);
    point, squaredDistance := b.ClosestPointXY(x, y, p, d);
    SearchNearestConcat(x, y, a.Vertices(), b.Vertices(), Nearest(closestPoint, minSquaredDistance));
    SearchNearestIsMinimum(x, y, a.Vertices() + b.Vertices(), Nearest(closestPoint, minSquaredDistance));
  }

  /**
   * A clone owns its buffer: appending to the clone grows the clone and
   * leaves the original's buffer and vertices as they were.
   */
  method CloneThenAppend(original: MultiPoint, point: Point) returns (c: MultiPoint)
    requires original.Valid() && original.flatCoordinates.Some?
    requires IsPoint(point) && Stride(point.layout) == original.stride
    ensures c != original && c.Valid()
    ensures c.Vertices() == original.Vertices() + [point.flatCoordinates]
    ensures original.flatCoordinates == old(original.flatCoordinates)
  {
    c := original.Clone();
    c.AppendPoint(point);
  }

  /**
   * The two-vertex example in layout XY, `[[0, 0], [3, 4]]`: its extent, the
   * nearest vertex to `(1, 1)` from an empty best at infinity, and two box tests.
   */
  method TwoVertexExample() returns (extent: Extent, point: seq<real>, squaredDistance: Distance,
                                     hit: bool, miss: bool)
    ensures extent == Box(0.0, 0.0, 3.0, 4.0)
    ensures point == [0.0, 0.0] && squaredDistance == Finite(2.0)
    ensures hit && !miss
  {
    var tuples := [[0.0, 0.0], [3.0, 4.0]];
    var g := new MultiPoint(Tuples(tuples), None);
    assert g.Vertices() == tuples by {
      assert tuples[0][..2] == tuples[0] && tuples[1][..2] == tuples[1];
    }
    extent := g.GetExtent();
    assert [tuples[0]] + [tuples[1]] == tuples;
    point, squaredDistance := g.ClosestPointXY(1.0, 1.0, [], Infinite);
    hit := g.IntersectsExtent(Box(2.0, 2.0, 5.0, 5.0));
    miss := g.IntersectsExtent(Box(10.0, 10.0, 20.0, 20.0));
  }

  /** The single vertex of a point inflates to a one-element list. */
  lemma {:induction false} OnePointInflates(flat: seq<real>, stride: nat)
    requires 0 < stride && |flat| == stride
    ensures |flat| % stride == 0
    ensures InflateCoordinates(flat, 0, |flat|, stride) == [flat]
  {
    MultipleHasNoRemainder(1, stride);
    var r := InflateCoordinates(flat, 0, |flat|, stride);
    CancelFactor(|r|, 1, stride);
    InflateWindow(flat, 0, |flat|, stride, 0);
    assert 0 * stride == 0 && (0 + 1) * stride == stride;
    assert r[0] == flat[0..stride] == flat;
  }
}
