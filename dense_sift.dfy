/** Dense SIFT on a regular grid (`generateDescriptors`): lay a stride grid
    over the interior of the padded image, describe every grid point at every
    scale, and store the descriptors column by column in `dpMat`, the
    descriptors of one point side by side, one column per scale. */
module DenseSift {
  import opened Common
  import opened Grid

  /** Length of a SIFT descriptor: the number of rows of `dpMat`. */
  const DescriptorLength: nat := 128

  /** A keypoint handed to the extractor: position, patch size, angle. */
  datatype KeyPoint = KeyPoint(pt: Point, size: real, angle: real)

  /** The descriptor matrix the extractor returns: one row per keypoint it
      describes, `width` columns. */
  datatype Batch = Batch(width: nat, rows: seq<seq<real>>)
  {
    /** An OpenCV matrix is rectangular: every row is `width` long. */
    predicate Rectangular()
    {
      forall i :: 0 <= i < |rows| ==> |rows[i]| == width
    }
  }

  /** What the function hands back: the descriptor columns, the number of
      grid points and the grid's width s1 and height s2 in points. */
  datatype DescriptorGrid = DescriptorGrid(dpMat: array<seq<real>>, numPoints: nat, s1: nat, s2: nat)

  /** The ways the function stops without a descriptor matrix: an empty
      image (reported, nothing returned), or an exception from OpenCV when a
      batch has fewer rows than grid points (`desc.row(i)`) or a width that
      `reshape(1, 128)` cannot turn into 128 rows. */
  datatype SiftError = EmptyImage | DescriptorRowMissing | DescriptorWidthIndivisible

  /** Grid points of the padded image: every gridSpacing pixels from
      (pad, pad), staying pad pixels away from the far borders. */
  function GridPoints(rows: int, cols: int, pad: nat, gridSpacing: nat): seq<Point>
    requires gridSpacing >= 1
  {
    ScanGrid(rows - pad, pad, cols - pad, gridSpacing, pad)
  }

  /** The patch size of scale sigma, `3 * sigma * (NBP + 1)` with NBP = 4. */
  function PatchSize(sigma: real): real
  {
    3.0 * sigma * (4.0 + 1.0)
  }

  /** One keypoint per grid point, all of the given size and angle 0. */
  function KeypointsAt(coords: seq<Point>, size: real): (kps: seq<KeyPoint>)
    ensures |kps| == |coords|
    ensures forall i :: 0 <= i < |kps| ==> kps[i].pt == coords[i] && kps[i].size == size && kps[i].angle == 0.0
  {
    seq(|coords|, i requires 0 <= i < |coords| => KeyPoint(coords[i], size, 0.0))
  }

  /** The batch the extractor returns for every scale, in scale order. */
  function Batches(extract: seq<KeyPoint> -> Batch, coords: seq<Point>, sigmas: seq<real>): (bs: seq<Batch>)
    ensures |bs| == |sigmas|
  {
    seq(|sigmas|, si requires 0 <= si < |sigmas| => extract(KeypointsAt(coords, PatchSize(sigmas[si]))))
  }

  /** The column of `dpMat` that holds point i at scale si. */
  function ColumnOf(i: nat, si: nat, numSigma: nat): nat
  {
    si + i * numSigma
  }

  /** `reshape(1, 128)` of one descriptor row throws unless its width is a
      positive multiple of 128. */
  predicate WidthRejected(width: nat)
  {
    width == 0 || width % DescriptorLength != 0
  }

  /** Copying a batch's rows throws: some point has no row, or the rows
      cannot be reshaped. */
  predicate BatchFails(b: Batch, numPoints: nat)
  {
    numPoints > 0 && (|b.rows| < numPoints || WidthRejected(b.width))
  }

  /** The exception the copy loop meets first: at point 0 the row is fetched
      before it is reshaped, and a missing later row shows up only after
      point 0 has been reshaped successfully. */
  function BatchError(b: Batch): SiftError
  {
    if |b.rows| > 0 && WidthRejected(b.width) then DescriptorWidthIndivisible else DescriptorRowMissing
  }

  /** The exception of the first scale whose copy throws, if any. */
  function FirstError(bs: seq<Batch>, numPoints: nat): (r: Result<(), SiftError>)
    ensures r.Success? <==> forall k :: 0 <= k < |bs| ==> !BatchFails(bs[k], numPoints)
  {
    if |bs| == 0 then Success(())
    else if BatchFails(bs[0], numPoints) then Failure(BatchError(bs[0]))
    else
      var r := FirstError(bs[1..], numPoints);
      assert forall k :: 1 <= k < |bs| ==> bs[1..][k - 1] == bs[k];
      r
  }

  /** What `copyTo` leaves in point i's column: the point's descriptor row
      when the rows are exactly 128 wide, and otherwise the column as it
      was, because a 128 x k result is copied into a fresh matrix rather
      than into the 128 x 1 column. */
  function Written(b: Batch, i: nat, before: seq<real>): seq<real>
  {
    if b.width == DescriptorLength && i < |b.rows| then b.rows[i] else before
  }

  /** The columns after copying scale si's batch into them: column j is
      written when it belongs to scale si, that is when j % numSigma == si. */
  function ScaleWritten(columns: seq<seq<real>>, b: Batch, si: nat, numSigma: nat): (r: seq<seq<real>>)
    requires numSigma >= 1
    ensures |r| == |columns|
  {
    seq(|columns|, j requires 0 <= j < |columns| =>
      if j % numSigma == si then Written(b, j / numSigma, columns[j]) else columns[j])
  }

  /** The columns while scale si's batch is being copied: the columns of
      the first i points at scale si are written, the rest as they were. */
  ghost function WrittenBelow(columns: seq<seq<real>>, b: Batch, si: nat, numSigma: nat, i: nat): (r: seq<seq<real>>)
    requires numSigma >= 1
    ensures |r| == |columns|
  {
    seq(|columns|, j requires 0 <= j < |columns| =>
      if j % numSigma == si && j / numSigma < i then Written(b, j / numSigma, columns[j]) else columns[j])
  }

  /** Writing point i's column at scale si extends the written points by one. */
  lemma WrittenBelowStep(columns: seq<seq<real>>, b: Batch, si: nat, numSigma: nat, i: nat)
    requires si < numSigma && ColumnOf(i, si, numSigma) < |columns|
    ensures WrittenBelow(columns, b, si, numSigma, i)[ColumnOf(i, si, numSigma)] == columns[ColumnOf(i, si, numSigma)]
    ensures WrittenBelow(columns, b, si, numSigma, i + 1) ==
      WrittenBelow(columns, b, si, numSigma, i)[ColumnOf(i, si, numSigma) := Written(b, i, columns[ColumnOf(i, si, numSigma)])]
  {
    var col := ColumnOf(i, si, numSigma);
    ColumnOfParts(i, si, numSigma);
    forall j | 0 <= j < |columns| && j != col && j % numSigma == si
      ensures j / numSigma != i
    {
      DivUnique(j, numSigma, j / numSigma, j % numSigma);
    }
  }

  /** Once every point's column is written, the whole scale is. */
  lemma WrittenBelowAll(columns: seq<seq<real>>, b: Batch, si: nat, numSigma: nat, numPoints: nat)
    requires numSigma >= 1 && |columns| == numPoints * numSigma
    ensures WrittenBelow(columns, b, si, numSigma, numPoints) == ScaleWritten(columns, b, si, numSigma)
  {
    forall j | 0 <= j < |columns|
      ensures j / numSigma < numPoints
    {
      DivBelow(j, numPoints, numSigma);
    }
  }

  /** The columns once the scales before si are copied: the later scales'
      columns still hold their initial zeros. */
  ghost predicate FilledBelow(columns: seq<seq<real>>, bs: seq<Batch>, numSigma: nat, si: nat)
    requires numSigma == |bs| >= 1
  {
    forall j :: 0 <= j < |columns| ==>
      columns[j] == if j % numSigma < si then Written(bs[j % numSigma], j / numSigma, Zeros(DescriptorLength))
                    else Zeros(DescriptorLength)
  }

  /** Copying scale si's batch extends the filled scales by one. */
  lemma FilledStep(columns: seq<seq<real>>, bs: seq<Batch>, numSigma: nat, si: nat)
    requires numSigma == |bs| >= 1 && si < numSigma && FilledBelow(columns, bs, numSigma, si)
    ensures FilledBelow(ScaleWritten(columns, bs[si], si, numSigma), bs, numSigma, si + 1)
  {
  }

  /** The finished `dpMat`: column j holds, for point j / numSigma at scale
      j % numSigma, what the copy wrote over the initial zeros. */
  ghost predicate Layout(columns: seq<seq<real>>, bs: seq<Batch>, numPoints: nat, numSigma: nat)
  {
    && numSigma == |bs| && numSigma >= 1
    && |columns| == numPoints * numSigma
    && forall j :: 0 <= j < |columns| ==>
         columns[j] == Written(bs[j % numSigma], j / numSigma, Zeros(DescriptorLength))
  }

  /** The nested loop that fills `coords`, rows outer, columns inner. */
  method BuildCoords(rows: int, cols: int, pad: nat, gridSpacing: nat) returns (coords: seq<Point>)
    requires gridSpacing >= 1
    ensures coords == GridPoints(rows, cols, pad, gridSpacing)
  {
    coords := [];
    var y := pad;
    while y < rows - pad
      invariant coords + ScanGrid(rows - pad, pad, cols - pad, gridSpacing, y) == GridPoints(rows, cols, pad, gridSpacing)
      decreases rows - pad - y
    {
      ghost var row := ScanRow(cols - pad, gridSpacing, y, pad);
      ghost var rest := ScanGrid(rows - pad, pad, cols - pad, gridSpacing, y + gridSpacing);
      assert ScanGrid(rows - pad, pad, cols - pad, gridSpacing, y) == row + rest;
      assert coords + (row + rest) == (coords + row) + rest;
      coords := AppendRow(coords, cols - pad, gridSpacing, y, pad);
      y := y + gridSpacing;
    }
  }

  /** The inner loop of the grid: append the points of row y from column x
      on, every gridSpacing columns. */
  method AppendRow(coords: seq<Point>, xEnd: int, gridSpacing: nat, y: int, x0: int) returns (out: seq<Point>)
    requires gridSpacing >= 1
    ensures out == coords + ScanRow(xEnd, gridSpacing, y, x0)
  {
    out := coords;
    var x := x0;
    while x < xEnd
      invariant coords + ScanRow(xEnd, gridSpacing, y, x0) == out + ScanRow(xEnd, gridSpacing, y, x)
      decreases xEnd - x
    {
      assert ScanRow(xEnd, gridSpacing, y, x) == [Point(x, y)] + ScanRow(xEnd, gridSpacing, y, x + gridSpacing);
      out := out + [Point(x, y)];
      x := x + gridSpacing;
    }
  }

  /** The per-scale keypoint loop. */
  method BuildKeypoints(coords: seq<Point>, size: real) returns (kps: seq<KeyPoint>)
    ensures kps == KeypointsAt(coords, size)
  {
    kps := [];
    var i := 0;
    while i < |coords|
      invariant 0 <= i <= |coords|
      invariant kps == KeypointsAt(coords[..i], size)
    {
      kps := kps + [KeyPoint(coords[i], size, 0.0)];
      i := i + 1;
    }
    assert coords[..i] == coords;
  }

  /** The copy loop of one scale: point i's descriptor row goes to column
      si + i * numSigma, and no other column changes. */
  method CopyScale(dpMat: array<seq<real>>, desc: Batch, si: nat, numSigma: nat, numPoints: nat)
    returns (outcome: Result<(), SiftError>)
    requires si < numSigma && dpMat.Length == numPoints * numSigma
    modifies dpMat
    ensures outcome.Success? <==> !BatchFails(desc, numPoints)
    ensures outcome.Failure? ==> outcome.error == BatchError(desc)
    ensures outcome.Success? ==> dpMat[..] == ScaleWritten(old(dpMat[..]), desc, si, numSigma)
  {
    var i := 0;
    while i < numPoints
      invariant 0 <= i <= numPoints
      invariant i > 0 ==> i <= |desc.rows| && !WidthRejected(desc.width)
      invariant dpMat[..] == WrittenBelow(old(dpMat[..]), desc, si, numSigma, i)
    {
      if i >= |desc.rows| {
        return Failure(DescriptorRowMissing);
      }
      if WidthRejected(desc.width) {
        return Failure(DescriptorWidthIndivisible);
      }
      var col := ColumnOf(i, si, numSigma);
      ColumnOfInRange(i, si, numPoints, numSigma);
      WrittenBelowStep(old(dpMat[..]), desc, si, numSigma, i);
      if desc.width == DescriptorLength {
        dpMat[col] := desc.rows[i];
      }
      i := i + 1;
    }
    WrittenBelowAll(old(dpMat[..]), desc, si, numSigma, numPoints);
    return Success(());
  }

  /** `generateDescriptors` for an h x w image padded by pad on every side. */
  method GenerateDescriptors(h: nat, w: nat, pad: nat, gridSpacing: nat, sigmas: seq<real>,
                             extract: seq<KeyPoint> -> Batch)
    returns (res: Result<DescriptorGrid, SiftError>)
    requires gridSpacing >= 1 && |sigmas| >= 1
    ensures h == 0 || w == 0 ==> res == Failure(EmptyImage)
    ensures h > 0 && w > 0 ==>
      var coords := GridPoints(h + 2 * pad, w + 2 * pad, pad, gridSpacing);
      var bs := Batches(extract, coords, sigmas);
      && (FirstError(bs, |coords|).Failure? ==> res == Failure(FirstError(bs, |coords|).error))
      && (FirstError(bs, |coords|).Success? ==>
        && res.Success?
        && fresh(res.value.dpMat)
        && res.value.numPoints == |coords|
        && res.value.s1 == CeilDiv(w, gridSpacing) && res.value.s2 == CeilDiv(h, gridSpacing)
        && Layout(res.value.dpMat[..], bs, |coords|, |sigmas|))
  {
    if h == 0 || w == 0 {
      return Failure(EmptyImage);
    }
    var rows, cols := h + 2 * pad, w + 2 * pad;
    var coords := BuildCoords(rows, cols, pad, gridSpacing);
    var numPoints := |coords|;
    var numSigma := |sigmas|;
    var s1 := (cols - 2 * pad + gridSpacing - 1) / gridSpacing;
    var s2 := (rows - 2 * pad + gridSpacing - 1) / gridSpacing;
    assert s1 == CeilDiv(w, gridSpacing) && s2 == CeilDiv(h, gridSpacing) by {
      assert cols - 2 * pad == w && rows - 2 * pad == h;
    }
    MulNonNegative(numPoints, numSigma);
    var dpMat := new seq<real>[numPoints * numSigma](_ => Zeros(DescriptorLength));
    assert forall j :: 0 <= j < dpMat.Length ==> dpMat[j] == Zeros(DescriptorLength);
    var outcome := DescribeScales(dpMat, coords, sigmas, extract);
    if outcome.Failure? {
      return Failure(outcome.error);
    }
    return Success(DescriptorGrid(dpMat, numPoints, s1, s2));
  }

  /** The scale loop: describe the grid at every scale in turn and copy each
      batch into its columns, stopping at the first exception. */
  method DescribeScales(dpMat: array<seq<real>>, coords: seq<Point>, sigmas: seq<real>,
                        extract: seq<KeyPoint> -> Batch)
    returns (outcome: Result<(), SiftError>)
    requires |sigmas| >= 1 && dpMat.Length == |coords| * |sigmas|
    requires forall j :: 0 <= j < dpMat.Length ==> dpMat[j] == Zeros(DescriptorLength)
    modifies dpMat
    ensures outcome == FirstError(Batches(extract, coords, sigmas), |coords|)
    ensures outcome.Success? ==> Layout(dpMat[..], Batches(extract, coords, sigmas), |coords|, |sigmas|)
  {
    var numPoints, numSigma := |coords|, |sigmas|;
    ghost var bs := Batches(extract, coords, sigmas);
    var si := 0;
    while si < numSigma
      invariant 0 <= si <= numSigma
      invariant forall k :: 0 <= k < si ==> !BatchFails(bs[k], numPoints)
      invariant FilledBelow(dpMat[..], bs, numSigma, si)
    {
      var keypoints := BuildKeypoints(coords, PatchSize(sigmas[si]));
      var desc := extract(keypoints);
      assert desc == bs[si];
      ghost var before := dpMat[..];
      var outcome := CopyScale(dpMat, desc, si, numSigma, numPoints);
      if outcome.Failure? {
        FirstErrorAt(bs, numPoints, si);
        return Failure(outcome.error);
      }
      FilledStep(before, bs, numSigma, si);
      si := si + 1;
    }
    assert FirstError(bs, numPoints).Success?;
    assert FirstError(bs, numPoints).value == ();
    return Success(());
  }

  /** The first failing scale decides the exception. */
  lemma {:induction false} FirstErrorAt(bs: seq<Batch>, numPoints: nat, si: nat)
    requires si < |bs| && BatchFails(bs[si], numPoints)
    requires forall k :: 0 <= k < si ==> !BatchFails(bs[k], numPoints)
    ensures FirstError(bs, numPoints) == Failure(BatchError(bs[si]))
    decreases si
  {
    if si > 0 {
      assert forall k :: 0 <= k < si - 1 ==> bs[1..][k] == bs[k + 1];
      FirstErrorAt(bs[1..], numPoints, si - 1);
    }
  }

  /** Column si + i * numSigma belongs to point i and scale si. */
  lemma ColumnOfParts(i: nat, si: nat, numSigma: nat)
    requires si < numSigma
    ensures ColumnOf(i, si, numSigma) / numSigma == i
    ensures ColumnOf(i, si, numSigma) % numSigma == si
  {
    DivUnique(ColumnOf(i, si, numSigma), numSigma, i, si);
  }

  /** Point i owns the block [i * numSigma, (i + 1) * numSigma), which lies
      inside the numPoints * numSigma columns. */
  lemma ColumnOfInRange(i: nat, si: nat, numPoints: nat, numSigma: nat)
    requires i < numPoints && si < numSigma
    ensures i * numSigma <= ColumnOf(i, si, numSigma) < (i + 1) * numSigma
    ensures ColumnOf(i, si, numSigma) < numPoints * numSigma
  {
    MulPred(i + 1, numSigma);
    MulMonotone(i + 1, numPoints, numSigma);
  }

  /** Every column is written for exactly one (point, scale) pair: the
      layout is a bijection from [0, numPoints) x [0, numSigma) onto the
      columns. */
  lemma ColumnLayoutBijective(numPoints: nat, numSigma: nat)
    requires numSigma >= 1
    ensures forall i, si :: 0 <= i < numPoints && 0 <= si < numSigma ==>
      ColumnOf(i, si, numSigma) < numPoints * numSigma
    ensures forall i1, si1, i2, si2 ::
      (0 <= si1 < numSigma && 0 <= si2 < numSigma && ColumnOf(i1, si1, numSigma) == ColumnOf(i2, si2, numSigma)) ==>
        i1 == i2 && si1 == si2
    ensures forall j :: 0 <= j < numPoints * numSigma ==>
      j / numSigma < numPoints && ColumnOf(j / numSigma, j % numSigma, numSigma) == j
  {
    forall i, si | 0 <= i < numPoints && 0 <= si < numSigma
      ensures ColumnOf(i, si, numSigma) < numPoints * numSigma
    {
      ColumnOfInRange(i, si, numPoints, numSigma);
    }
    forall i1, si1, i2, si2 | 0 <= si1 < numSigma && 0 <= si2 < numSigma &&
      ColumnOf(i1, si1, numSigma) == ColumnOf(i2, si2, numSigma)
      ensures i1 == i2 && si1 == si2
    {
      ColumnOfParts(i1, si1, numSigma);
      ColumnOfParts(i2, si2, numSigma);
    }
    forall j | 0 <= j < numPoints * numSigma
      ensures j / numSigma < numPoints && ColumnOf(j / numSigma, j % numSigma, numSigma) == j
    {
      DivBelow(j, numPoints, numSigma);
    }
  }

  /** In the finished matrix, column si + i * numSigma holds row i of scale
      si's batch when that batch has 128-wide rows, and is still all zeros
      otherwise; every column is 128 long. */
  lemma LayoutAt(columns: seq<seq<real>>, bs: seq<Batch>, numPoints: nat, numSigma: nat, i: nat, si: nat)
    requires Layout(columns, bs, numPoints, numSigma)
    requires i < numPoints && si < numSigma && !BatchFails(bs[si], numPoints) && bs[si].Rectangular()
    ensures ColumnOf(i, si, numSigma) < |columns|
    ensures columns[ColumnOf(i, si, numSigma)] ==
      if bs[si].width == DescriptorLength then bs[si].rows[i] else Zeros(DescriptorLength)
    ensures |columns[ColumnOf(i, si, numSigma)]| == DescriptorLength
  {
    ColumnOfParts(i, si, numSigma);
    ColumnOfInRange(i, si, numPoints, numSigma);
  }

  /** The grid has ceil(w / g) points per row and ceil(h / g) rows of
      points, so numPoints == s1 * s2, and point r * s1 + c is
      (pad + c * g, pad + r * g). */
  lemma GridShape(h: nat, w: nat, pad: nat, g: nat, r: nat, c: nat)
    requires g >= 1
    ensures |GridPoints(h + 2 * pad, w + 2 * pad, pad, g)| == CeilDiv(h, g) * CeilDiv(w, g)
    ensures r * g < h && c * g < w ==>
      && r * CeilDiv(w, g) + c < |GridPoints(h + 2 * pad, w + 2 * pad, pad, g)|
      && GridPoints(h + 2 * pad, w + 2 * pad, pad, g)[r * CeilDiv(w, g) + c] == Point(pad + c * g, pad + r * g)
  {
    GridLength(h, w, pad, g);
    if r * g < h && c * g < w {
      ScanGridAt(h + pad, pad, w + pad, g, pad, r, c);
    }
  }

  lemma GridLength(h: nat, w: nat, pad: nat, g: nat)
    requires g >= 1
    ensures StrideCount(pad, w + pad, g) == CeilDiv(w, g)
    ensures |GridPoints(h + 2 * pad, w + 2 * pad, pad, g)| == CeilDiv(h, g) * CeilDiv(w, g)
  {
    ScanGridLength(h + pad, pad, w + pad, g, pad);
    PaddedStrides(h, pad, g);
    PaddedStrides(w, pad, g);
  }

  /** Striding from pad to n + pad takes as many steps as from 0 to n. */
  lemma PaddedStrides(n: nat, pad: nat, g: nat)
    requires g >= 1
    ensures StrideCount(pad, n + pad, g) == CeilDiv(n, g)
  {
    assert StrideCount(pad, n + pad, g) == StrideCount(0, n, g);
    StrideCountFromZero(n, g);
  }

  /** Every grid point lies in [pad, cols - pad) x [pad, rows - pad), and a
      pixel of that rectangle is a grid point exactly when its offsets from
      (pad, pad) are multiples of the spacing. */
  lemma GridPointsInside(rows: int, cols: int, pad: nat, g: nat, p: Point)
    requires g >= 1
    ensures p in GridPoints(rows, cols, pad, g) <==>
      && pad <= p.x < cols - pad && pad <= p.y < rows - pad
      && (p.x - pad) % g == 0 && (p.y - pad) % g == 0
  {
    ScanGridMember(rows - pad, pad, cols - pad, g, pad, p);
  }
}
