/**
 * The flat coordinate buffer: vertices of `stride` components each, stored
 * one after the other in a single sequence of numbers. Deflate writes
 * structured coordinates into such a buffer; inflate cuts a buffer back into
 * tuples.
 */
module FlatCoordinates {

  /** Every tuple has at least `stride` components, so deflate never reads past its end. */
  predicate Fits(coordinates: seq<seq<real>>, stride: nat)
  {
    forall i :: 0 <= i < |coordinates| ==> stride <= |coordinates[i]|
  }

  /** The first `stride` components of each tuple. */
  function Truncated(coordinates: seq<seq<real>>, stride: nat): (r: seq<seq<real>>)
    requires Fits(coordinates, stride)
    ensures |r| == |coordinates|
    ensures forall i :: 0 <= i < |r| ==> r[i] == coordinates[i][..stride]
  {
    seq(|coordinates|, i requires 0 <= i < |coordinates| => coordinates[i][..stride])
  }

  /** The flat encoding of `coordinates`: their first `stride` components, tuple after tuple. */
  function Flattened(coordinates: seq<seq<real>>, stride: nat): (r: seq<real>)
    requires Fits(coordinates, stride)
    ensures |r| == |coordinates| * stride
  {
    if coordinates == [] then []
    else
      var n := |coordinates| - 1;
      assert (n + 1) * stride == n * stride + stride;
      Flattened(coordinates[..n], stride) + coordinates[n][..stride]
  }

  /** Arithmetic step behind every stride-stepped loop: the next window still fits. */
  lemma {:induction false} NextWindowFits(k: nat, n: nat, stride: nat)
    requires k < n
    ensures (k + 1) * stride <= n * stride
    ensures k * stride + stride == (k + 1) * stride
  {
    assert n * stride == (k + 1) * stride + (n - k - 1) * stride;
  }

  /**
   * JavaScript's `a[k] = v` on an array of length at least `k`: it overwrites
   * element `k`, or appends when `k` is the length.
   */
  function WriteAt(buffer: seq<real>, k: nat, v: real): (r: seq<real>)
    requires k <= |buffer|
    ensures |r| == if k < |buffer| then |buffer| else k + 1
    ensures r[k] == v
    ensures forall i :: 0 <= i < |buffer| && i != k ==> r[i] == buffer[i]
  {
    if k < |buffer| then buffer[k := v] else buffer + [v]
  }

  /**
   * Writing one value at position `end` extends `out[offset..end]` by that
   * value and leaves everything before `offset` and after `end` alone.
   */
  lemma {:induction false} WriteAtEnd(out: seq<real>, flat: seq<real>, offset: nat, end: nat, v: real)
    requires offset <= end <= |out| && offset <= |flat|
    requires |out| == if end <= |flat| then |flat| else end
    requires out[..offset] == flat[..offset]
    requires end < |flat| ==> out[end..] == flat[end..]
    ensures |WriteAt(out, end, v)| == if end + 1 <= |flat| then |flat| else end + 1
    ensures WriteAt(out, end, v)[..offset] == flat[..offset]
    ensures WriteAt(out, end, v)[offset..end + 1] == out[offset..end] + [v]
    ensures end + 1 < |flat| ==> WriteAt(out, end, v)[end + 1..] == flat[end + 1..]
  {
    var r := WriteAt(out, end, v);
    assert r[..offset] == out[..offset];
    if end + 1 < |flat| {
      assert forall p :: end + 1 <= p < |flat| ==> r[p] == out[p] == out[end..][p - end] == flat[end..][p - end];
    }
  }

  /**
   * Deflate: writes the first `stride` components of every tuple into
   * `flat`, starting at `offset` and growing it as needed, and returns the
   * updated buffer with the offset just after the last written component.
   * What lies before `offset` and after the written range is kept.
   */
  method DeflateCoordinates(flat: seq<real>, offset: nat, coordinates: seq<seq<real>>, stride: nat)
    returns (out: seq<real>, end: nat)
    requires offset <= |flat|
    requires Fits(coordinates, stride)
    ensures end == offset + |coordinates| * stride
    ensures |out| == if end <= |flat| then |flat| else end
    ensures out[..offset] == flat[..offset]
    ensures out[offset..end] == Flattened(coordinates, stride)
    ensures end < |flat| ==> out[end..] == flat[end..]
  {
    out, end := flat, offset;
    for i := 0 to |coordinates|
      invariant end == offset + |Flattened(coordinates[..i], stride)|
      invariant |out| == if end <= |flat| then |flat| else end
      invariant out[..offset] == flat[..offset]
      invariant out[offset..end] == Flattened(coordinates[..i], stride)
      invariant end < |flat| ==> out[end..] == flat[end..]
    {
      ghost var before := out[offset..end];
      for j := 0 to stride
        invariant end == offset + |before| + j
        invariant |out| == if end <= |flat| then |flat| else end
        invariant out[..offset] == flat[..offset]
        invariant out[offset..end] == before + coordinates[i][..j]
        invariant end < |flat| ==> out[end..] == flat[end..]
      {
        WriteAtEnd(out, flat, offset, end, coordinates[i][j]);
        assert coordinates[i][..j + 1] == coordinates[i][..j] + [coordinates[i][j]];
        out := WriteAt(out, end, coordinates[i][j]);
        end := end + 1;
      }
      assert coordinates[..i + 1][..i] == coordinates[..i];
    }
    assert coordinates[..|coordinates|] == coordinates;
  }

  /** A positive factor does not shrink a product with a non-zero integer. */
  lemma {:induction false} ProductBounds(s: int, t: int)
    requires s > 0
    ensures t >= 1 ==> s * t >= s
    ensures t <= -1 ==> s * t <= -s
  {
    if t >= 1 {
      assert s * t == s + s * (t - 1);
      assert s * (t - 1) >= 0;
    }
    if t <= -1 {
      assert s * t == -s - s * (-(t + 1));
      assert s * (-(t + 1)) >= 0;
    }
  }

  /** A whole number of windows leaves no remainder. */
  lemma {:induction false} MultipleHasNoRemainder(k: int, stride: int)
    requires stride > 0
    ensures (k * stride) % stride == 0
  {
    var a := k * stride;
    var d, m := a / stride, a % stride;
    assert a == stride * d + m && 0 <= m < stride;
    assert m == stride * (k - d);
    ProductBounds(stride, k - d);
  }

  /** Removing one window from a whole number of windows leaves a whole number of windows. */
  lemma {:induction false} DropWindow(length: nat, stride: nat)
    requires 0 < stride && 0 < length && length % stride == 0
    ensures stride <= length && (length - stride) % stride == 0
  {
    var q := length / stride;
    assert length == q * stride;
    assert q != 0;
    assert length - stride == (q - 1) * stride;
    MultipleHasNoRemainder(q - 1, stride);
  }

  /** Windows counted from the end of `a` windows start after them. */
  lemma {:induction false} Distribute(a: nat, b: nat, stride: nat)
    ensures (a + b) * stride == a * stride + b * stride
  {
  }

  /** Window `i` of the buffer after its first window is window `i + 1` of the whole. */
  lemma {:induction false} ShiftWindow(offset: nat, i: nat, stride: nat)
    ensures offset + stride + i * stride == offset + (i + 1) * stride
    ensures offset + stride + (i + 1) * stride == offset + (i + 2) * stride
  {
  }

  /**
   * Inflate: cuts `flat[offset..end]` into consecutive `stride`-sized
   * windows, each one tuple, in buffer order (InflateWindow says which).
   */
  function InflateCoordinates(flat: seq<real>, offset: nat, end: nat, stride: nat): (r: seq<seq<real>>)
    requires 0 < stride && offset <= end <= |flat| && (end - offset) % stride == 0
    ensures |r| * stride == end - offset
    decreases end - offset
  {
    if offset == end then []
    else
      DropWindow(end - offset, stride);
      var rest := InflateCoordinates(flat, offset + stride, end, stride);
      assert (|rest| + 1) * stride == |rest| * stride + stride;
      [flat[offset..offset + stride]] + rest
  }

  /** Tuple `i` of an inflated buffer is window `i` of the buffer. */
  lemma {:induction false} InflateWindow(flat: seq<real>, offset: nat, end: nat, stride: nat, i: nat)
    requires 0 < stride && offset <= end <= |flat| && (end - offset) % stride == 0
    requires i < |InflateCoordinates(flat, offset, end, stride)|
    ensures offset + (i + 1) * stride <= end
    ensures InflateCoordinates(flat, offset, end, stride)[i] == flat[offset + i * stride..offset + (i + 1) * stride]
    decreases end - offset
  {
    var r := InflateCoordinates(flat, offset, end, stride);
    NextWindowFits(i, |r|, stride);
    if i > 0 {
      DropWindow(end - offset, stride);
      InflateWindow(flat, offset + stride, end, stride, i - 1);
      ShiftWindow(offset, i - 1, stride);
    }
  }

  /** Tuple `i` of the input lands in window `i` of its flat encoding. */
  lemma {:induction false} FlattenedWindow(coordinates: seq<seq<real>>, stride: nat, i: nat)
    requires Fits(coordinates, stride) && i < |coordinates|
    ensures (i + 1) * stride <= |coordinates| * stride
    ensures Flattened(coordinates, stride)[i * stride..(i + 1) * stride] == coordinates[i][..stride]
  {
    var n := |coordinates| - 1;
    var front := coordinates[..n];
    NextWindowFits(i, |coordinates|, stride);
    assert n * stride + stride == |coordinates| * stride;
    assert Flattened(coordinates, stride) == Flattened(front, stride) + coordinates[n][..stride];
    if i < n {
      FlattenedWindow(front, stride, i);
    }
  }

  /** A buffer of `n` whole windows has `n` windows by division. */
  lemma {:induction false} WindowCount(n: nat, stride: nat)
    requires 0 < stride
    ensures (n * stride) / stride == n
  {
    var q := (n * stride) / stride;
    MultipleHasNoRemainder(n, stride);
    assert n * stride == stride * q;
    CancelFactor(n, q, stride);
  }

  /** Equal products with the same positive factor have equal cofactors. */
  lemma {:induction false} CancelFactor(a: nat, b: nat, stride: nat)
    requires 0 < stride && a * stride == b * stride
    ensures a == b
  {
    assert (a - b) * stride == 0;
    ProductBounds(stride, a - b);
  }

  /** Round trip: inflating a deflated coordinate list gives back its tuples, cut to `stride`. */
  lemma {:induction false} InflateFlattened(coordinates: seq<seq<real>>, stride: nat)
    requires 0 < stride && Fits(coordinates, stride)
    ensures |coordinates| * stride % stride == 0
    ensures InflateCoordinates(Flattened(coordinates, stride), 0, |coordinates| * stride, stride)
            == Truncated(coordinates, stride)
  {
    MultipleHasNoRemainder(|coordinates|, stride);
    var flat := Flattened(coordinates, stride);
    var r := InflateCoordinates(flat, 0, |flat|, stride);
    CancelFactor(|r|, |coordinates|, stride);
    forall i | 0 <= i < |r|
      ensures r[i] == coordinates[i][..stride]
    {
      InflateWindow(flat, 0, |flat|, stride, i);
      FlattenedWindow(coordinates, stride, i);
    }
  }

  /** Round trip for well-formed input: tuples of exactly `stride` components come back unchanged. */
  lemma {:induction false} InflateDeflateRoundTrip(coordinates: seq<seq<real>>, stride: nat)
    requires 0 < stride
    requires forall i :: 0 <= i < |coordinates| ==> |coordinates[i]| == stride
    ensures Fits(coordinates, stride) && |coordinates| * stride % stride == 0
    ensures InflateCoordinates(Flattened(coordinates, stride), 0, |coordinates| * stride, stride) == coordinates
  {
    InflateFlattened(coordinates, stride);
    assert forall i :: 0 <= i < |coordinates| ==> coordinates[i][..stride] == coordinates[i];
  }

  /** Every tuple of an inflated buffer has exactly `stride` components. */
  lemma {:induction false} InflatedTuplesFit(flat: seq<real>, stride: nat)
    requires 0 < stride && |flat| % stride == 0
    ensures forall i :: 0 <= i < |InflateCoordinates(flat, 0, |flat|, stride)| ==>
              |InflateCoordinates(flat, 0, |flat|, stride)[i]| == stride
  {
    var r := InflateCoordinates(flat, 0, |flat|, stride);
    forall i | 0 <= i < |r|
      ensures |r[i]| == stride
    {
      InflateWindow(flat, 0, |flat|, stride, i);
    }
  }

  /** Every position of a buffer of `n` whole windows lies in one of them. */
  lemma {:induction false} PositionInWindow(p: nat, n: nat, stride: nat) returns (i: nat)
    requires 0 < stride && p < n * stride
    ensures i < n && i * stride <= p < i * stride + stride
  {
    i := p / stride;
    var j := p % stride;
    assert p == stride * i + j && 0 <= j < stride;
    ProductBounds(stride, i - n + 1);
    assert stride * (i - n + 1) == stride * i - n * stride + stride;
  }

  /** Two buffers of equal length with the same windows are the same buffer. */
  lemma {:induction false} InflateInjective(a: seq<real>, b: seq<real>, stride: nat)
    requires 0 < stride && |a| % stride == 0 && |a| == |b|
    requires InflateCoordinates(a, 0, |a|, stride) == InflateCoordinates(b, 0, |b|, stride)
    ensures a == b
  {
    var r := InflateCoordinates(a, 0, |a|, stride);
    forall p | 0 <= p < |a|
      ensures a[p] == b[p]
    {
      var i := PositionInWindow(p, |r|, stride);
      var lo, hi := i * stride, (i + 1) * stride;
      assert lo <= p < hi by { ShiftWindow(0, i, stride); }
      assert hi <= |a| && r[i] == a[lo..hi] by { InflateWindow(a, 0, |a|, stride, i); }
      assert r[i] == b[lo..hi] by { InflateWindow(b, 0, |b|, stride, i); }
      assert a[p] == a[lo..hi][p - lo];
      assert b[p] == b[lo..hi][p - lo];
    }
  }

  /** Round trip the other way: deflating the tuples of a buffer gives back the buffer. */
  lemma {:induction false} FlattenedInflated(flat: seq<real>, stride: nat)
    requires 0 < stride && |flat| % stride == 0
    ensures Fits(InflateCoordinates(flat, 0, |flat|, stride), stride)
    ensures Flattened(InflateCoordinates(flat, 0, |flat|, stride), stride) == flat
  {
    var tuples := InflateCoordinates(flat, 0, |flat|, stride);
    InflatedTuplesFit(flat, stride);
    InflateDeflateRoundTrip(tuples, stride);
    var again := Flattened(tuples, stride);
    InflateInjective(again, flat, stride);
  }

  /** A window that starts inside a buffer of `n` whole windows is one of them. */
  lemma {:induction false} WindowIndexBound(k: nat, n: nat, stride: nat)
    requires 0 < stride && k * stride < n * stride
    ensures k < n
  {
    ProductBounds(stride, k - n + 1);
    assert stride * (k - n + 1) == k * stride - n * stride + stride;
  }

  /**
   * Window `na + k` of a buffer of `na` windows (length `la`) followed by `nb`
   * windows (length `lb`) is window `k` of the second part, shifted by `la`.
   */
  lemma {:induction false} SecondWindowArith(na: nat, nb: nat, k: nat, stride: nat, la: nat, lb: nat, lo: int, hi: int)
    requires 0 < stride && la == na * stride && lb == nb * stride
    requires lo == (na + k) * stride && hi == (na + k + 1) * stride && hi <= la + lb
    ensures k < nb && la <= lo <= hi <= la + lb
    ensures lo - la == k * stride && hi - la == (k + 1) * stride
  {
    Distribute(na, k, stride);
    Distribute(na, k + 1, stride);
    WindowIndexBound(k, nb, stride);
  }

  /** A slice that lies past the end of `a` is a slice of `b`. */
  lemma {:induction false} SliceOfSecond(a: seq<real>, b: seq<real>, lo: nat, hi: nat)
    requires |a| <= lo <= hi <= |a| + |b|
    ensures (a + b)[lo..hi] == b[lo - |a|..hi - |a|]
  {
  }

  /** Tuple `|ra| + k` of two buffers laid end to end is tuple `k` of the second buffer. */
  lemma {:induction false} InflateSecondAt(a: seq<real>, b: seq<real>, stride: nat, k: nat)
    requires 0 < stride && |a| % stride == 0 && |b| % stride == 0 && |a + b| % stride == 0
    requires |InflateCoordinates(a, 0, |a|, stride)| + k < |InflateCoordinates(a + b, 0, |a + b|, stride)|
    ensures k < |InflateCoordinates(b, 0, |b|, stride)|
    ensures InflateCoordinates(a + b, 0, |a + b|, stride)[|InflateCoordinates(a, 0, |a|, stride)| + k]
            == InflateCoordinates(b, 0, |b|, stride)[k]
  {
    var ra, rb := InflateCoordinates(a, 0, |a|, stride), InflateCoordinates(b, 0, |b|, stride);
    var r := InflateCoordinates(a + b, 0, |a + b|, stride);
    var i := |ra| + k;
    var lo, hi, lob, hib := i * stride, (i + 1) * stride, k * stride, (k + 1) * stride;
    assert hi <= |a| + |b| by {
      InflateWindow(a + b, 0, |a + b|, stride, i);
    }
    SecondWindowArith(|ra|, |rb|, k, stride, |a|, |b|, lo, hi);
    assert r[i] == (a + b)[lo..hi] by {
      InflateWindow(a + b, 0, |a + b|, stride, i);
    }
    assert rb[k] == b[lob..hib] by {
      InflateWindow(b, 0, |b|, stride, k);
    }
    SliceOfSecond(a, b, lo, hi);
  }

  /** Tuple `i` of two buffers laid end to end, for `i` inside the first buffer, is its tuple `i`. */
  lemma {:induction false} InflateFirstAt(a: seq<real>, b: seq<real>, stride: nat, i: nat)
    requires 0 < stride && |a| % stride == 0 && |a + b| % stride == 0
    requires i < |InflateCoordinates(a, 0, |a|, stride)|
    requires i < |InflateCoordinates(a + b, 0, |a + b|, stride)|
    ensures InflateCoordinates(a + b, 0, |a + b|, stride)[i] == InflateCoordinates(a, 0, |a|, stride)[i]
  {
    var lo, hi := i * stride, (i + 1) * stride;
    assert hi <= |a| && InflateCoordinates(a, 0, |a|, stride)[i] == a[lo..hi] by {
      InflateWindow(a, 0, |a|, stride, i);
    }
    assert InflateCoordinates(a + b, 0, |a + b|, stride)[i] == (a + b)[lo..hi] by {
      InflateWindow(a + b, 0, |a + b|, stride, i);
    }
    assert (a + b)[lo..hi] == a[lo..hi];
  }

  /** Tuple `i` of two buffers laid end to end comes from the first buffer, or else from the second. */
  lemma {:induction false} InflateAppendAt(a: seq<real>, b: seq<real>, stride: nat, i: nat)
    requires 0 < stride && |a| % stride == 0 && |b| % stride == 0 && |a + b| % stride == 0
    requires i < |InflateCoordinates(a + b, 0, |a + b|, stride)|
    requires |InflateCoordinates(a + b, 0, |a + b|, stride)|
             == |InflateCoordinates(a, 0, |a|, stride)| + |InflateCoordinates(b, 0, |b|, stride)|
    ensures InflateCoordinates(a + b, 0, |a + b|, stride)[i]
            == (InflateCoordinates(a, 0, |a|, stride) + InflateCoordinates(b, 0, |b|, stride))[i]
  {
    var ra, rb := InflateCoordinates(a, 0, |a|, stride), InflateCoordinates(b, 0, |b|, stride);
    if i < |ra| {
      InflateFirstAt(a, b, stride, i);
      assert (ra + rb)[i] == ra[i];
    } else {
      InflateSecondAt(a, b, stride, i - |ra|);
      assert (ra + rb)[i] == rb[i - |ra|];
    }
  }

  /** Inflating two buffers laid end to end gives the tuples of the first, then those of the second. */
  lemma {:induction false} InflateAppend(a: seq<real>, b: seq<real>, stride: nat)
    requires 0 < stride && |a| % stride == 0 && |b| % stride == 0
    ensures |a + b| % stride == 0
    ensures InflateCoordinates(a + b, 0, |a + b|, stride)
            == InflateCoordinates(a, 0, |a|, stride) + InflateCoordinates(b, 0, |b|, stride)
  {
    var ra, rb := InflateCoordinates(a, 0, |a|, stride), InflateCoordinates(b, 0, |b|, stride);
    Distribute(|ra|, |rb|, stride);
    MultipleHasNoRemainder(|ra| + |rb|, stride);
    var r := InflateCoordinates(a + b, 0, |a + b|, stride);
    CancelFactor(|r|, |ra| + |rb|, stride);
    forall i | 0 <= i < |r|
      ensures r[i] == (ra + rb)[i]
    {
      InflateAppendAt(a, b, stride, i);
    }
  }

  /** The window a stride-stepped scan reaches at position `k * stride` is tuple `k`. */
  lemma {:induction false} ScanWindow(flat: seq<real>, stride: nat, k: nat)
    requires 0 < stride && |flat| % stride == 0 && k * stride < |flat|
    ensures k < |InflateCoordinates(flat, 0, |flat|, stride)|
    ensures k * stride + stride <= |flat|
    ensures InflateCoordinates(flat, 0, |flat|, stride)[k] == flat[k * stride..k * stride + stride]
  {
    var r := InflateCoordinates(flat, 0, |flat|, stride);
    WindowIndexBound(k, |r|, stride);
    InflateWindow(flat, 0, |flat|, stride, k);
    ShiftWindow(0, k, stride);
  }

  /** Scaling by a positive stride keeps the order of window counts. */
  lemma {:induction false} ScaleOrder(a: nat, b: nat, stride: nat)
    requires 0 < stride && a * stride <= b * stride
    ensures a <= b
  {
    ProductBounds(stride, a - b);
    assert stride * (a - b) == a * stride - b * stride;
  }

  /** A stride-stepped scan that has passed the end has visited every window. */
  lemma {:induction false} ScanDone(flat: seq<real>, stride: nat, k: nat)
    requires 0 < stride && |flat| % stride == 0 && |flat| <= k * stride
    requires k <= |InflateCoordinates(flat, 0, |flat|, stride)|
    ensures k == |InflateCoordinates(flat, 0, |flat|, stride)|
  {
    var n := |InflateCoordinates(flat, 0, |flat|, stride)|;
    ScaleOrder(n, k, stride);
  }

  /** The stride decides the grouping: a six-value buffer read with stride 3 gives two triples... */
  lemma {:induction false} InflateExampleByThree()
    ensures InflateCoordinates([1.0, 2.0, 3.0, 4.0, 5.0, 6.0], 0, 6, 3) == [[1.0, 2.0, 3.0], [4.0, 5.0, 6.0]]
  {
    var flat := [1.0, 2.0, 3.0, 4.0, 5.0, 6.0];
    var r := InflateCoordinates(flat, 0, 6, 3);
    CancelFactor(|r|, 2, 3);
    assert r[0] == [1.0, 2.0, 3.0] by {
      InflateWindow(flat, 0, 6, 3, 0);
      assert flat[0..3] == [1.0, 2.0, 3.0];
    }
    assert r[1] == [4.0, 5.0, 6.0] by {
      InflateWindow(flat, 0, 6, 3, 1);
      assert flat[3..6] == [4.0, 5.0, 6.0];
    }
  }

  /** ...and the same buffer read with stride 2 gives three pairs. */
  lemma {:induction false} InflateExampleByTwo()
    ensures InflateCoordinates([1.0, 2.0, 3.0, 4.0, 5.0, 6.0], 0, 6, 2) == [[1.0, 2.0], [3.0, 4.0], [5.0, 6.0]]
  {
    var flat := [1.0, 2.0, 3.0, 4.0, 5.0, 6.0];
    var r := InflateCoordinates(flat, 0, 6, 2);
    CancelFactor(|r|, 3, 2);
    assert r[0] == [1.0, 2.0] by {
      InflateWindow(flat, 0, 6, 2, 0);
      assert flat[0..2] == [1.0, 2.0];
    }
    assert r[1] == [3.0, 4.0] by {
      InflateWindow(flat, 0, 6, 2, 1);
      assert flat[2..4] == [3.0, 4.0];
    }
    assert r[2] == [5.0, 6.0] by {
      InflateWindow(flat, 0, 6, 2, 2);
      assert flat[4..6] == [5.0, 6.0];
    }
  }
}
