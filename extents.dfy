/**
 * Axis-aligned bounding boxes ("extents") and the planar distance helpers
 * the multi-point queries use: squared distance between two points,
 * inclusive box containment, and the squared distance from a point to a box.
 */
module Extents {

  /**
   * A bounding box `[minX, minY, maxX, maxY]`, or the empty extent (the
   * box `[+Infinity, +Infinity, -Infinity, -Infinity]` that contains nothing).
   */
  datatype Extent = Empty | Box(minX: real, minY: real, maxX: real, maxY: real)

  /** A squared distance, which may be `+Infinity`. */
  datatype Distance = Finite(value: real) | Infinite

  /** Strict `<` on squared distances, with `+Infinity` above every finite value. */
  predicate Less(a: Distance, b: Distance)
    ensures Less(a, b) ==> a.Finite?
    ensures a.Finite? && b.Infinite? ==> Less(a, b)
    ensures a.Finite? && b.Finite? ==> (Less(a, b) <==> a.value < b.value)
  {
    match a
    case Infinite => false
    case Finite(u) => b.Infinite? || u < b.value
  }

  /** `<=` on squared distances. */
  predicate AtMost(a: Distance, b: Distance)
  {
    !Less(b, a)
  }

  /** Squared planar distance between `(x1, y1)` and `(x2, y2)`: zero for the same point, positive otherwise. */
  function SquaredDistance(x1: real, y1: real, x2: real, y2: real): (d: real)
    ensures d >= 0.0
    ensures x1 == x2 && y1 == y2 ==> d == 0.0
  {
    var dx, dy := x2 - x1, y2 - y1;
    SumOfSquares(dx, dy);
    dx * dx + dy * dy
  }

  /** A positive number has a positive square. */
  lemma {:induction false} SquareOfPositive(u: real)
    requires u > 0.0
    ensures u * u > 0.0
  {
  }

  /** A square is never negative, and is positive for a non-zero number. */
  lemma {:induction false} SquareSign(u: real)
    ensures u * u >= 0.0
    ensures u != 0.0 ==> u * u > 0.0
  {
    if u < 0.0 {
      SquareOfPositive(-u);
      assert u * u == (-u) * (-u);
    } else if u > 0.0 {
      SquareOfPositive(u);
    }
  }

  /** A sum of two squares is never negative, and is zero only when both terms are. */
  lemma {:induction false} SumOfSquares(u: real, v: real)
    ensures u * u + v * v >= 0.0
    ensures u == 0.0 && v == 0.0 ==> u * u + v * v == 0.0
    ensures u != 0.0 || v != 0.0 ==> u * u + v * v > 0.0
  {
    SquareSign(u);
    SquareSign(v);
  }

  /** Inclusive containment of `(x, y)` in the extent; the empty extent contains nothing. */
  predicate ContainsXY(extent: Extent, x: real, y: real)
    ensures ContainsXY(extent, x, y) ==> extent.Box?
  {
    extent.Box? && extent.minX <= x <= extent.maxX && extent.minY <= y <= extent.maxY
  }

  /** Distance along one axis from `v` to the interval `[lo, hi]`. */
  function AxisGap(lo: real, hi: real, v: real): (g: real)
    ensures g >= 0.0
    ensures lo <= v <= hi ==> g == 0.0
    ensures !(lo <= v <= hi) ==> g != 0.0
  {
    if v < lo then lo - v else if hi < v then v - hi else 0.0
  }

  /**
   * The squared distance from `(x, y)` to the nearest point of the extent:
   * zero exactly when the point is inside, `+Infinity` for the empty extent.
   */
  function ClosestSquaredDistanceXY(extent: Extent, x: real, y: real): (d: Distance)
    ensures d.Infinite? <==> extent.Empty?
    ensures d.Finite? ==> d.value >= 0.0
    ensures ContainsXY(extent, x, y) ==> d == Finite(0.0)
  {
    match extent
    case Empty => Infinite
    case Box(minX, minY, maxX, maxY) =>
      var dx, dy := AxisGap(minX, maxX, x), AxisGap(minY, maxY, y);
      SumOfSquares(dx, dy);
      Finite(dx * dx + dy * dy)
  }

  /** The point of `[lo, hi]` nearest to `v`. */
  function Clamp(lo: real, hi: real, v: real): real
  {
    if v < lo then lo else if hi < v then hi else v
  }

  /**
   * The bound is attained: for a box with `minX <= maxX` and `minY <= maxY`
   * it is the squared distance from `(x, y)` to the box point nearest it.
   */
  lemma {:induction false} ClosestSquaredDistanceIsAttained(extent: Extent, x: real, y: real)
    requires extent.Box? && extent.minX <= extent.maxX && extent.minY <= extent.maxY
    ensures ContainsXY(extent, Clamp(extent.minX, extent.maxX, x), Clamp(extent.minY, extent.maxY, y))
    ensures ClosestSquaredDistanceXY(extent, x, y)
            == Finite(SquaredDistance(x, y, Clamp(extent.minX, extent.maxX, x), Clamp(extent.minY, extent.maxY, y)))
  {
    var cx, cy := Clamp(extent.minX, extent.maxX, x), Clamp(extent.minY, extent.maxY, y);
    var gx, gy := AxisGap(extent.minX, extent.maxX, x), AxisGap(extent.minY, extent.maxY, y);
    assert gx * gx == (cx - x) * (cx - x) by {
      if extent.maxX < x {
        assert gx == -(cx - x);
      }
    }
    assert gy * gy == (cy - y) * (cy - y) by {
      if extent.maxY < y {
        assert gy == -(cy - y);
      }
    }
  }

  /** For `0 <= u <= v`, `u * u <= v * v`. */
  lemma {:induction false} SquareMonotone(u: real, v: real)
    requires 0.0 <= u <= v
    ensures u * u <= v * v
  {
    assert u * u <= u * v;
    assert u * v <= v * v;
  }

  /** The gap from `v` to an interval is at most the distance from `v` to any point of it. */
  lemma {:induction false} AxisGapBound(lo: real, hi: real, v: real, p: real)
    requires lo <= p <= hi
    ensures AxisGap(lo, hi, v) * AxisGap(lo, hi, v) <= (p - v) * (p - v)
  {
    var g := AxisGap(lo, hi, v);
    if v < lo {
      SquareMonotone(g, p - v);
    } else if hi < v {
      SquareMonotone(g, v - p);
      assert (v - p) * (v - p) == (p - v) * (p - v);
    }
  }

  /**
   * The pruning bound: no point of the extent is closer to `(x, y)` than
   * the extent itself.
   */
  lemma {:induction false} ClosestSquaredDistanceIsLowerBound(extent: Extent, x: real, y: real, a: real, b: real)
    requires ContainsXY(extent, a, b)
    ensures AtMost(ClosestSquaredDistanceXY(extent, x, y), Finite(SquaredDistance(x, y, a, b)))
  {
    AxisGapBound(extent.minX, extent.maxX, x, a);
    AxisGapBound(extent.minY, extent.maxY, y, b);
  }

  /** Every box `outer` covers `inner`; the empty extent is covered by anything. */
  predicate ContainsExtent(outer: Extent, inner: Extent)
  {
    inner.Empty? ||
    (outer.Box? && outer.minX <= inner.minX && inner.maxX <= outer.maxX &&
     outer.minY <= inner.minY && inner.maxY <= outer.maxY)
  }

  /** Grows the extent just enough to take in `(x, y)`. */
  function ExtendXY(extent: Extent, x: real, y: real): (r: Extent)
    ensures ContainsXY(r, x, y)
    ensures ContainsExtent(r, extent)
    ensures forall e: Extent :: ContainsExtent(e, extent) && ContainsXY(e, x, y) ==> ContainsExtent(e, r)
  {
    match extent
    case Empty => Box(x, y, x, y)
    case Box(minX, minY, maxX, maxY) =>
      Box(if x < minX then x else minX, if y < minY then y else minY,
          if maxX < x then x else maxX, if maxY < y then y else maxY)
  }

  /** Every vertex carries at least an x and a y component. */
  predicate HasXY(vertices: seq<seq<real>>)
  {
    forall i :: 0 <= i < |vertices| ==> 2 <= |vertices[i]|
  }

  /** The extent of a list of vertices: the empty extent grown by each vertex's `(x, y)` in turn. */
  function ExtentOf(vertices: seq<seq<real>>): (r: Extent)
    requires HasXY(vertices)
    ensures r.Empty? <==> vertices == []
    ensures r.Box? ==> r.minX <= r.maxX && r.minY <= r.maxY
  {
    if vertices == [] then Empty
    else
      var n := |vertices| - 1;
      ExtendXY(ExtentOf(vertices[..n]), vertices[n][0], vertices[n][1])
  }

  /** Every vertex lies inside the extent of the list. */
  lemma {:induction false} ExtentContainsVertices(vertices: seq<seq<real>>, i: nat)
    requires HasXY(vertices) && i < |vertices|
    ensures ContainsXY(ExtentOf(vertices), vertices[i][0], vertices[i][1])
  {
    var n := |vertices| - 1;
    if i < n {
      ExtentContainsVertices(vertices[..n], i);
      assert vertices[..n][i] == vertices[i];
    }
  }

  /** The extent is the smallest box that holds every vertex. */
  lemma {:induction false} ExtentIsSmallest(vertices: seq<seq<real>>, e: Extent)
    requires HasXY(vertices)
    requires forall i :: 0 <= i < |vertices| ==> ContainsXY(e, vertices[i][0], vertices[i][1])
    ensures ContainsExtent(e, ExtentOf(vertices))
  {
    if vertices != [] {
      var n := |vertices| - 1;
      assert forall i :: 0 <= i < n ==> vertices[..n][i] == vertices[i];
      ExtentIsSmallest(vertices[..n], e);
    }
  }

  /** Adding a vertex never shrinks the extent. */
  lemma {:induction false} ExtentGrows(vertices: seq<seq<real>>, v: seq<real>)
    requires HasXY(vertices) && 2 <= |v|
    ensures HasXY(vertices + [v])
    ensures ContainsExtent(ExtentOf(vertices + [v]), ExtentOf(vertices))
    ensures ContainsXY(ExtentOf(vertices + [v]), v[0], v[1])
  {
    assert (vertices + [v])[..|vertices|] == vertices;
  }

  /**
   * No vertex is closer to `(x, y)` than the extent of the list: the bound
   * that lets a nearest-vertex search skip the whole list.
   */
  lemma {:induction false} ExtentBoundsVertexDistance(vertices: seq<seq<real>>, x: real, y: real, i: nat)
    requires HasXY(vertices) && i < |vertices|
    ensures AtMost(ClosestSquaredDistanceXY(ExtentOf(vertices), x, y),
                   Finite(SquaredDistance(x, y, vertices[i][0], vertices[i][1])))
  {
    ExtentContainsVertices(vertices, i);
    ClosestSquaredDistanceIsLowerBound(ExtentOf(vertices), x, y, vertices[i][0], vertices[i][1]);
  }
}
