/**
 * Geometry layouts and their strides: which numeric components each vertex
 * carries, and how many of them there are.
 */
module Layouts {
  import opened Wrappers

  /** The component layout of every vertex of a geometry. */
  datatype GeometryLayout = XY | XYZ | XYM | XYZM

  /** Number of numeric components per vertex: one per letter of the layout. */
  function Stride(layout: GeometryLayout): (s: nat)
    ensures 2 <= s <= 4
    ensures s == 2 <==> layout == XY
    ensures s == 4 <==> layout == XYZM
  {
    match layout
    case XY => 2
    case XYZ => 3
    case XYM => 3
    case XYZM => 4
  }

  /**
   * The layout guessed from a vertex's number of components. Three
   * components are read as XYZ, never XYM; no other length has a layout.
   */
  function LayoutForStride(stride: nat): (r: Option<GeometryLayout>)
    ensures r.Some? <==> 2 <= stride <= 4
    ensures r.Some? ==> Stride(r.value) == stride && r.value != XYM
  {
    if stride == 2 then Some(XY)
    else if stride == 3 then Some(XYZ)
    else if stride == 4 then Some(XYZM)
    else None
  }

  /** Every layout but XYM is recovered from its own stride. */
  lemma {:induction false} LayoutForStrideInverts(layout: GeometryLayout)
    ensures layout != XYM ==> LayoutForStride(Stride(layout)) == Some(layout)
    ensures layout == XYM ==> LayoutForStride(Stride(layout)) == Some(XYZ)
  {
  }

  /**
   * The layout a geometry takes when its coordinates are set: an explicit
   * layout wins; otherwise an empty coordinate list gives XY and a non-empty
   * one takes the layout of its first vertex's length, if there is one.
   */
  function ResolveLayout(optLayout: Option<GeometryLayout>, coordinates: seq<seq<real>>): (r: Option<GeometryLayout>)
    ensures optLayout.Some? ==> r == optLayout
    ensures optLayout.None? && coordinates == [] ==> r == Some(XY)
    ensures optLayout.None? && coordinates != [] ==>
              (r.Some? <==> 2 <= |coordinates[0]| <= 4) &&
              (r.Some? ==> Stride(r.value) == |coordinates[0]| && r.value != XYM)
  {
    if optLayout.Some? then optLayout
    else if |coordinates| == 0 then Some(XY)
    else LayoutForStride(|coordinates[0]|)
  }
}
