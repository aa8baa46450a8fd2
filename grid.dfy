/** Regular stride grids: the nested `for (y = y0; y < yEnd; y += step)
    for (x = x0; x < xEnd; x += step)` scans that both the flow evaluator
    and the dense descriptor grid perform, as the sequence of points they
    visit in order. */
module Grid {
  import opened Common

  /** A pixel position, column x and row y. */
  datatype Point = Point(x: int, y: int)

  /** How many of from, from + step, ... lie below `to`. */
  function StrideCount(from: int, to: int, step: nat): nat
    requires step >= 1
  {
    if from >= to then 0 else CeilDiv(to - from, step)
  }

  /** Counting from 0, the strides below n are ceil(n / step). */
  lemma StrideCountFromZero(n: nat, step: nat)
    requires step >= 1
    ensures StrideCount(0, n, step) == CeilDiv(n, step)
  {
    if n == 0 {
      DivUnique(step - 1, step, 0, step - 1);
    }
  }

  /** The points of row y the inner loop visits from column x on. */
  function ScanRow(xEnd: int, step: nat, y: int, x: int): (ps: seq<Point>)
    requires step >= 1
    ensures forall k :: 0 <= k < |ps| ==> ps[k].y == y && x <= ps[k].x < xEnd
    decreases xEnd - x
  {
    if x >= xEnd then [] else [Point(x, y)] + ScanRow(xEnd, step, y, x + step)
  }

  /** The points both loops visit from row y on, row by row, every row
      starting at column xStart. */
  function ScanGrid(yEnd: int, xStart: int, xEnd: int, step: nat, y: int): (ps: seq<Point>)
    requires step >= 1
    ensures forall k :: 0 <= k < |ps| ==> y <= ps[k].y < yEnd && xStart <= ps[k].x < xEnd
    decreases yEnd - y
  {
    if y >= yEnd then [] else ScanRow(xEnd, step, y, xStart) + ScanGrid(yEnd, xStart, xEnd, step, y + step)
  }

  lemma {:induction false} ScanRowLength(xEnd: int, step: nat, y: int, x: int)
    requires step >= 1
    ensures |ScanRow(xEnd, step, y, x)| == StrideCount(x, xEnd, step)
    decreases xEnd - x
  {
    if x < xEnd {
      ScanRowLength(xEnd, step, y, x + step);
      if xEnd - x > step {
        CeilDivStep(xEnd - x, step);
      } else {
        CeilDivSmall(xEnd - x, step);
      }
    }
  }

  /** Every row holds the same number of points. */
  lemma {:induction false} ScanRowSameLength(xEnd: int, step: nat, y: int, y': int, x: int)
    requires step >= 1
    ensures |ScanRow(xEnd, step, y, x)| == |ScanRow(xEnd, step, y', x)|
    decreases xEnd - x
  {
    if x < xEnd {
      ScanRowSameLength(xEnd, step, y, y', x + step);
    }
  }

  /** One more row of `perRow` points per stride of rows. */
  lemma BlockCount(n: nat, step: nat, perRow: nat)
    requires step >= 1 && n > 0
    ensures CeilDiv(n, step) * perRow == perRow + (if n > step then CeilDiv(n - step, step) * perRow else 0)
  {
    if n > step {
      CeilDivStep(n, step);
      var k := CeilDiv(n - step, step);
      assert (1 + k) * perRow == perRow + k * perRow;
    } else {
      CeilDivSmall(n, step);
    }
  }

  /** The grid from row y on has one full row per row stride. */
  lemma {:induction false} ScanGridLength(yEnd: int, xStart: int, xEnd: int, step: nat, y: int)
    requires step >= 1
    ensures |ScanGrid(yEnd, xStart, xEnd, step, y)| == StrideCount(y, yEnd, step) * StrideCount(xStart, xEnd, step)
    decreases yEnd - y
  {
    if y < yEnd {
      ScanGridLength(yEnd, xStart, xEnd, step, y + step);
      ScanRowLength(xEnd, step, y, xStart);
      BlockCount(yEnd - y, step, StrideCount(xStart, xEnd, step));
    }
  }

  /** The k-th point of a row sits k strides right of where the scan starts. */
  lemma {:induction false} ScanRowAt(xEnd: int, step: nat, y: int, x: int, k: nat)
    requires step >= 1 && x + k * step < xEnd
    ensures k < |ScanRow(xEnd, step, y, x)|
    ensures ScanRow(xEnd, step, y, x)[k] == Point(x + k * step, y)
    decreases k
  {
    if k > 0 {
      assert x + step + (k - 1) * step == x + k * step;
      ScanRowAt(xEnd, step, y, x + step, k - 1);
    }
  }

  /** The first points from row y on are those of row y. */
  lemma ScanGridHead(yEnd: int, xStart: int, xEnd: int, step: nat, y: int, j: int)
    requires step >= 1 && y < yEnd && 0 <= j < |ScanRow(xEnd, step, y, xStart)|
    ensures j < |ScanGrid(yEnd, xStart, xEnd, step, y)|
    ensures ScanGrid(yEnd, xStart, xEnd, step, y)[j] == ScanRow(xEnd, step, y, xStart)[j]
  {
  }

  /** Past row y, the points from row y on are those from the next row on. */
  lemma ScanGridTail(yEnd: int, xStart: int, xEnd: int, step: nat, y: int, j: int)
    requires step >= 1 && y < yEnd
    requires |ScanRow(xEnd, step, y, xStart)| <= j
    requires j - |ScanRow(xEnd, step, y, xStart)| < |ScanGrid(yEnd, xStart, xEnd, step, y + step)|
    ensures j < |ScanGrid(yEnd, xStart, xEnd, step, y)|
    ensures ScanGrid(yEnd, xStart, xEnd, step, y)[j] ==
      ScanGrid(yEnd, xStart, xEnd, step, y + step)[j - |ScanRow(xEnd, step, y, xStart)|]
  {
  }

  /** Block r of the points from row y on is the row yr = y + r * step, and
      its point c is point i = r * perRow + c of the whole scan. */
  lemma {:induction false} ScanGridRow(yEnd: int, xStart: int, xEnd: int, step: nat, y: int,
                                       r: nat, c: nat, perRow: nat, yr: int, i: int)
    requires step >= 1 && perRow == |ScanRow(xEnd, step, 0, xStart)| && c < perRow
    requires yr == y + r * step && yr < yEnd && i == r * perRow + c
    ensures c < |ScanRow(xEnd, step, yr, xStart)|
    ensures 0 <= i < |ScanGrid(yEnd, xStart, xEnd, step, y)|
    ensures ScanGrid(yEnd, xStart, xEnd, step, y)[i] == ScanRow(xEnd, step, yr, xStart)[c]
    decreases r
  {
    ScanRowSameLength(xEnd, step, y, 0, xStart);
    ScanRowSameLength(xEnd, step, yr, 0, xStart);
    if r == 0 {
      assert yr == y && i == c;
      ScanGridHead(yEnd, xStart, xEnd, step, y, c);
    } else {
      PeelBlock(r, c, perRow, step, y, yr, i);
      ScanGridRow(yEnd, xStart, xEnd, step, y + step, r - 1, c, perRow, yr, i - perRow);
      ScanGridTail(yEnd, xStart, xEnd, step, y, i);
    }
  }

  /** Block r from row y is block r - 1 from row y + step, and its points
      sit one row of perRow points earlier. */
  lemma PeelBlock(r: nat, c: nat, perRow: nat, step: nat, y: int, yr: int, i: int)
    requires r >= 1 && yr == y + r * step && i == r * perRow + c
    ensures yr == (y + step) + (r - 1) * step && i - perRow == (r - 1) * perRow + c
    ensures y + step <= yr && perRow <= i
  {
    MulPred(r, step);
    MulPred(r, perRow);
    MulNonNegative(r - 1, step);
    MulNonNegative(r - 1, perRow);
  }

  /** Point number r * perRow + c of the scan from row y0 is
      (xStart + c * step, y0 + r * step): rows outer, columns inner. */
  lemma ScanGridAt(yEnd: int, xStart: int, xEnd: int, step: nat, y0: int, r: nat, c: nat)
    requires step >= 1 && y0 + r * step < yEnd && xStart + c * step < xEnd
    ensures r * StrideCount(xStart, xEnd, step) + c < |ScanGrid(yEnd, xStart, xEnd, step, y0)|
    ensures ScanGrid(yEnd, xStart, xEnd, step, y0)[r * StrideCount(xStart, xEnd, step) + c] ==
      Point(xStart + c * step, y0 + r * step)
  {
    var perRow := StrideCount(xStart, xEnd, step);
    BelowCeilDiv(c, xEnd - xStart, step);
    ScanRowAt(xEnd, step, y0 + r * step, xStart, c);
    ScanRowLength(xEnd, step, 0, xStart);
    ScanGridRow(yEnd, xStart, xEnd, step, y0, r, c, perRow, y0 + r * step, r * perRow + c);
  }

  /** A non-negative offset is a multiple of step exactly when it is zero or
      one stride more than a multiple of step. */
  lemma MultipleStep(d: int, step: nat)
    requires step >= 1 && d >= 0
    ensures d % step == 0 <==> d == 0 || (d >= step && (d - step) % step == 0)
  {
    if d < step {
      DivUnique(d, step, 0, d);
    } else {
      DivUnique(d, step, (d - step) / step + 1, (d - step) % step);
    }
  }

  /** A row scan visits exactly the points of its row that lie a whole
      number of strides right of its start and before its end. */
  lemma {:induction false} ScanRowMember(xEnd: int, step: nat, y: int, x: int, p: Point)
    requires step >= 1
    ensures p in ScanRow(xEnd, step, y, x) <==> p.y == y && x <= p.x < xEnd && (p.x - x) % step == 0
    decreases xEnd - x
  {
    if x < xEnd {
      ScanRowMember(xEnd, step, y, x + step, p);
      if x <= p.x {
        MultipleStep(p.x - x, step);
      }
    }
  }

  /** The scan visits exactly the points of the rectangle that lie a whole
      number of strides from its first row and first column. */
  lemma {:induction false} ScanGridMember(yEnd: int, xStart: int, xEnd: int, step: nat, y: int, p: Point)
    requires step >= 1
    ensures p in ScanGrid(yEnd, xStart, xEnd, step, y) <==>
      && y <= p.y < yEnd && xStart <= p.x < xEnd
      && (p.y - y) % step == 0 && (p.x - xStart) % step == 0
    decreases yEnd - y
  {
    if y < yEnd {
      ScanGridMember(yEnd, xStart, xEnd, step, y + step, p);
      ScanRowMember(xEnd, step, y, xStart, p);
      if y <= p.y {
        MultipleStep(p.y - y, step);
      }
    }
  }
}
