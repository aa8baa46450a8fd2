/** Dense local matching (`computeDenseFlowLocal`): for every source cell, a
    brute-force nearest-neighbour search over a clamped square window of the
    target field, scanned row by row, keeping the first minimum it meets. */
module DenseFlow {
  import opened Common

  /** An H x W descriptor image whose every cell holds a C-channel vector
      (a `CV_32FC(C)` matrix). */
  datatype DescriptorField = DescriptorField(rows: nat, cols: nat, channels: nat, cells: seq<seq<seq<real>>>)
  {
    ghost predicate Valid()
    {
      && |cells| == rows
      && (forall y :: 0 <= y < rows ==> |cells[y]| == cols)
      && (forall y, x :: 0 <= y < rows && 0 <= x < cols ==> |cells[y][x]| == channels)
    }
  }

  /** One cell of the flow field: the offset from a source cell to its match. */
  datatype Displacement = Displacement(dx: int, dy: int)

  /** The two assertions at the top of the matcher: equal sizes, then equal types. */
  datatype FlowError = SizeMismatch | TypeMismatch

  /** Both fields are well formed and agree in size and channel count. */
  ghost predicate Compatible(s: DescriptorField, t: DescriptorField)
  {
    s.Valid() && t.Valid() && s.rows == t.rows && s.cols == t.cols && s.channels == t.channels
  }

  /** Squared Euclidean distance over the first `n` channels, accumulated in
      channel order as the inner loop does. */
  function SqDistPrefix(a: seq<real>, b: seq<real>, n: nat): (d: real)
    requires n <= |a| && n <= |b|
    ensures d >= 0.0
  {
    if n == 0 then 0.0 else SqDistPrefix(a, b, n - 1) + Sq(a[n - 1] - b[n - 1])
  }

  /** Distance between source cell (x, y) and target cell (xx, yy). */
  function Dist(s: DescriptorField, t: DescriptorField, x: int, y: int, xx: int, yy: int): real
    requires Compatible(s, t)
    requires 0 <= y < s.rows && 0 <= x < s.cols && 0 <= yy < s.rows && 0 <= xx < s.cols
  {
    SqDistPrefix(s.cells[y][x], t.cells[yy][xx], s.channels)
  }

  /** Target cell (xx, yy) lies in the window of radius r around (x, y),
      clamped to the H x W grid. */
  predicate InWindow(h: int, w: int, r: int, x: int, y: int, xx: int, yy: int)
  {
    Max(0, y - r) <= yy <= Min(h - 1, y + r) && Max(0, x - r) <= xx <= Min(w - 1, x + r)
  }

  /** (xx1, yy1) is scanned before (xx2, yy2): rows outer, columns inner. */
  predicate Before(xx1: int, yy1: int, xx2: int, yy2: int)
  {
    yy1 < yy2 || (yy1 == yy2 && xx1 < xx2)
  }

  /** The cell the matcher settles on for source cell (x, y). Either it is a
      window cell whose distance is below FLT_MAX, no larger than any window
      cell's, and strictly smaller than every window cell scanned before it;
      or no window cell gets below FLT_MAX and the source position itself is
      kept. */
  ghost predicate Matched(s: DescriptorField, t: DescriptorField, r: int, x: int, y: int, mx: int, my: int)
    requires Compatible(s, t) && 0 <= y < s.rows && 0 <= x < s.cols
  {
    || (&& InWindow(s.rows, s.cols, r, x, y, mx, my)
        && Dist(s, t, x, y, mx, my) < FltMax
        && (forall yy, xx :: InWindow(s.rows, s.cols, r, x, y, xx, yy) ==>
              Dist(s, t, x, y, mx, my) <= Dist(s, t, x, y, xx, yy))
        && (forall yy, xx :: InWindow(s.rows, s.cols, r, x, y, xx, yy) && Before(xx, yy, mx, my) ==>
              Dist(s, t, x, y, mx, my) < Dist(s, t, x, y, xx, yy)))
    || (&& mx == x && my == y
        && forall yy, xx :: InWindow(s.rows, s.cols, r, x, y, xx, yy) ==> FltMax <= Dist(s, t, x, y, xx, yy))
  }

  /** What the scan knows once every window cell before (curX, curY) is seen. */
  ghost predicate Tracks(s: DescriptorField, t: DescriptorField, r: int, x: int, y: int,
                         curX: int, curY: int, bestDist: real, mx: int, my: int)
    requires Compatible(s, t) && 0 <= y < s.rows && 0 <= x < s.cols
  {
    || (&& InWindow(s.rows, s.cols, r, x, y, mx, my)
        && Before(mx, my, curX, curY)
        && bestDist == Dist(s, t, x, y, mx, my) < FltMax
        && (forall yy, xx :: InWindow(s.rows, s.cols, r, x, y, xx, yy) && Before(xx, yy, curX, curY) ==>
              bestDist <= Dist(s, t, x, y, xx, yy))
        && (forall yy, xx :: InWindow(s.rows, s.cols, r, x, y, xx, yy) && Before(xx, yy, mx, my) ==>
              bestDist < Dist(s, t, x, y, xx, yy)))
    || (&& mx == x && my == y && bestDist == FltMax
        && forall yy, xx :: InWindow(s.rows, s.cols, r, x, y, xx, yy) && Before(xx, yy, curX, curY) ==>
              FltMax <= Dist(s, t, x, y, xx, yy))
  }

  lemma TrackStart(s: DescriptorField, t: DescriptorField, r: int, x: int, y: int)
    requires Compatible(s, t) && 0 <= y < s.rows && 0 <= x < s.cols
    ensures Tracks(s, t, r, x, y, Max(0, x - r), Max(0, y - r), FltMax, x, y)
  {
  }

  /** Scanning window cell (xx, yy) with the strict `<` keeps the invariant. */
  lemma TrackCell(s: DescriptorField, t: DescriptorField, r: int, x: int, y: int,
                  xx: int, yy: int, bestDist: real, mx: int, my: int)
    requires Compatible(s, t) && 0 <= y < s.rows && 0 <= x < s.cols
    requires InWindow(s.rows, s.cols, r, x, y, xx, yy)
    requires Tracks(s, t, r, x, y, xx, yy, bestDist, mx, my)
    ensures Dist(s, t, x, y, xx, yy) < bestDist ==>
      Tracks(s, t, r, x, y, xx + 1, yy, Dist(s, t, x, y, xx, yy), xx, yy)
    ensures !(Dist(s, t, x, y, xx, yy) < bestDist) ==>
      Tracks(s, t, r, x, y, xx + 1, yy, bestDist, mx, my)
  {
  }

  /** Finishing a row of the window is starting the next one. */
  lemma TrackRow(s: DescriptorField, t: DescriptorField, r: int, x: int, y: int,
                 xx: int, yy: int, bestDist: real, mx: int, my: int)
    requires Compatible(s, t) && 0 <= y < s.rows && 0 <= x < s.cols
    requires xx > Min(s.cols - 1, x + r)
    requires Tracks(s, t, r, x, y, xx, yy, bestDist, mx, my)
    ensures Tracks(s, t, r, x, y, Max(0, x - r), yy + 1, bestDist, mx, my)
  {
  }

  /** Past the last row of the window the scan has seen every window cell. */
  lemma TrackEnd(s: DescriptorField, t: DescriptorField, r: int, x: int, y: int,
                 yy: int, bestDist: real, mx: int, my: int)
    requires Compatible(s, t) && 0 <= y < s.rows && 0 <= x < s.cols
    requires yy > Min(s.rows - 1, y + r)
    requires Tracks(s, t, r, x, y, Max(0, x - r), yy, bestDist, mx, my)
    ensures Matched(s, t, r, x, y, mx, my)
  {
  }

  /** The window search for one source cell (lines 33-57 of the matcher). */
  method BestMatch(s: DescriptorField, t: DescriptorField, r: int, x: int, y: int) returns (mx: int, my: int)
    requires Compatible(s, t) && 0 <= y < s.rows && 0 <= x < s.cols
    ensures Matched(s, t, r, x, y, mx, my)
  {
    var bestDist := FltMax;
    mx, my := x, y;
    var y0, y1 := Max(0, y - r), Min(s.rows - 1, y + r);
    var x0, x1 := Max(0, x - r), Min(s.cols - 1, x + r);
    TrackStart(s, t, r, x, y);
    var yy := y0;
    while yy <= y1
      invariant y0 <= yy
      invariant Tracks(s, t, r, x, y, x0, yy, bestDist, mx, my)
    {
      var xx := x0;
      while xx <= x1
        invariant x0 <= xx
        invariant Tracks(s, t, r, x, y, xx, yy, bestDist, mx, my)
      {
        var dist := CellDistance(s.cells[y][x], t.cells[yy][xx], s.channels);
        TrackCell(s, t, r, x, y, xx, yy, bestDist, mx, my);
        if dist < bestDist {
          bestDist := dist;
          mx, my := xx, yy;
        }
        xx := xx + 1;
      }
      TrackRow(s, t, r, x, y, xx, yy, bestDist, mx, my);
      yy := yy + 1;
    }
    TrackEnd(s, t, r, x, y, yy, bestDist, mx, my);
  }

  /** The channel loop: the squared distance between two descriptors,
      summed over their first n channels in order. */
  method CellDistance(fs: seq<real>, ft: seq<real>, n: nat) returns (dist: real)
    requires n <= |fs| && n <= |ft|
    ensures dist == SqDistPrefix(fs, ft, n)
  {
    dist := 0.0;
    var c := 0;
    while c < n
      invariant 0 <= c <= n
      invariant dist == SqDistPrefix(fs, ft, c)
    {
      dist := dist + Sq(fs[c] - ft[c]);
      c := c + 1;
    }
  }

  /** `computeDenseFlowLocal`: check the two fields agree, then match every
      source cell and store the offset to its match. */
  method ComputeDenseFlowLocal(s: DescriptorField, t: DescriptorField, r: int)
    returns (res: Result<array2<Displacement>, FlowError>)
    requires s.Valid() && t.Valid()
    ensures res.Failure? <==> !Compatible(s, t)
    ensures res.Failure? ==>
      res.error == (if s.rows != t.rows || s.cols != t.cols then SizeMismatch else TypeMismatch)
    ensures res.Success? ==>
      && fresh(res.value)
      && res.value.Length0 == s.rows && res.value.Length1 == s.cols
      && forall y, x :: 0 <= y < s.rows && 0 <= x < s.cols ==>
           Matched(s, t, r, x, y, x + res.value[y, x].dx, y + res.value[y, x].dy)
  {
    if s.rows != t.rows || s.cols != t.cols {
      return Failure(SizeMismatch);
    }
    if s.channels != t.channels {
      return Failure(TypeMismatch);
    }
    var flow := new Displacement[s.rows, s.cols];
    var y := 0;
    while y < s.rows
      invariant 0 <= y <= s.rows
      invariant forall y', x' :: 0 <= y' < y && 0 <= x' < s.cols ==>
        Matched(s, t, r, x', y', x' + flow[y', x'].dx, y' + flow[y', x'].dy)
    {
      MatchRow(s, t, r, flow, y);
      y := y + 1;
    }
    return Success(flow);
  }

  /** One pass of the outer loop: match every cell of source row y and
      store the offsets in that row of the flow, leaving the other rows. */
  method MatchRow(s: DescriptorField, t: DescriptorField, r: int, flow: array2<Displacement>, y: int)
    requires Compatible(s, t) && 0 <= y < s.rows
    requires flow.Length0 == s.rows && flow.Length1 == s.cols
    modifies flow
    ensures forall y', x' :: 0 <= y' < s.rows && y' != y && 0 <= x' < s.cols ==> flow[y', x'] == old(flow[y', x'])
    ensures forall x' :: 0 <= x' < s.cols ==>
      Matched(s, t, r, x', y, x' + flow[y, x'].dx, y + flow[y, x'].dy)
  {
    var x := 0;
    while x < s.cols
      invariant 0 <= x <= s.cols
      invariant forall y', x' :: 0 <= y' < s.rows && y' != y && 0 <= x' < s.cols ==> flow[y', x'] == old(flow[y', x'])
      invariant forall x' :: 0 <= x' < x ==>
        Matched(s, t, r, x', y, x' + flow[y, x'].dx, y + flow[y, x'].dy)
    {
      var mx, my := BestMatch(s, t, r, x, y);
      flow[y, x] := Displacement(mx - x, my - y);
      x := x + 1;
    }
  }

  /** The scan order and the strict comparison make the match unique: no two
      distinct cells both satisfy the selection rule. */
  lemma MatchIsUnique(s: DescriptorField, t: DescriptorField, r: int, x: int, y: int,
                      mx1: int, my1: int, mx2: int, my2: int)
    requires Compatible(s, t) && 0 <= y < s.rows && 0 <= x < s.cols
    requires Matched(s, t, r, x, y, mx1, my1) && Matched(s, t, r, x, y, mx2, my2)
    ensures mx1 == mx2 && my1 == my2
  {
    if Before(mx1, my1, mx2, my2) || Before(mx2, my2, mx1, my1) {
      // the later of the two would have to be strictly below the earlier
    }
  }

  /** With a non-negative radius the match lies on the target grid and at
      most r cells away in each direction. */
  lemma MatchWithinWindow(s: DescriptorField, t: DescriptorField, r: int, x: int, y: int, mx: int, my: int)
    requires Compatible(s, t) && 0 <= y < s.rows && 0 <= x < s.cols
    requires r >= 0 && Matched(s, t, r, x, y, mx, my)
    ensures 0 <= mx < s.cols && 0 <= my < s.rows
    ensures -r <= mx - x <= r && -r <= my - y <= r
  {
  }

  /** A negative radius leaves the window empty: the match is the source
      position itself, so the flow is (0, 0). */
  lemma NegativeRadiusKeepsPosition(s: DescriptorField, t: DescriptorField, r: int, x: int, y: int, mx: int, my: int)
    requires Compatible(s, t) && 0 <= y < s.rows && 0 <= x < s.cols && r < 0
    ensures Matched(s, t, r, x, y, mx, my) <==> (mx == x && my == y)
  {
  }

  lemma {:induction false} ZeroDistanceMeansEqual(a: seq<real>, b: seq<real>, n: nat)
    requires n <= |a| && n <= |b|
    requires SqDistPrefix(a, b, n) == 0.0
    ensures forall i :: 0 <= i < n ==> a[i] == b[i]
  {
    if n > 0 {
      var d := a[n - 1] - b[n - 1];
      if d != 0.0 {
        SquareNonZero(d);
      }
      ZeroDistanceMeansEqual(a, b, n - 1);
    }
  }

  /** Matching a field against itself with r >= 0 always finds a cell at
      distance 0, whose descriptor therefore equals the source cell's. */
  lemma SelfMatchIsExact(s: DescriptorField, r: int, x: int, y: int, mx: int, my: int)
    requires Compatible(s, s) && 0 <= y < s.rows && 0 <= x < s.cols && r >= 0
    requires Matched(s, s, r, x, y, mx, my)
    ensures 0 <= my < s.rows && 0 <= mx < s.cols
    ensures Dist(s, s, x, y, mx, my) == 0.0
    ensures s.cells[my][mx] == s.cells[y][x]
  {
    assert InWindow(s.rows, s.cols, r, x, y, x, y);
    SelfDistanceZero(s.cells[y][x], s.channels);
    assert Dist(s, s, x, y, x, y) == 0.0;
    ZeroDistanceMeansEqual(s.cells[y][x], s.cells[my][mx], s.channels);
  }

  lemma {:induction false} SelfDistanceZero(a: seq<real>, n: nat)
    requires n <= |a|
    ensures SqDistPrefix(a, a, n) == 0.0
  {
    if n > 0 {
      SelfDistanceZero(a, n - 1);
    }
  }

  /** Matching a field against itself need not give zero flow: in a 1 x 2
      field with two equal descriptors, the right cell (x = 1) matches the
      left one, which the scan meets first, so its flow is (-1, 0). */
  lemma SelfMatchMayMoveToEarlierCell()
    ensures var f := DescriptorField(1, 2, 1, [[[0.0], [0.0]]]);
      && Compatible(f, f)
      && Matched(f, f, 1, 1, 0, 0, 0)
      && !Matched(f, f, 1, 1, 0, 1, 0)
  {
    var f := DescriptorField(1, 2, 1, [[[0.0], [0.0]]]);
    assert Dist(f, f, 1, 0, 0, 0) == 0.0;
    assert Dist(f, f, 1, 0, 1, 0) == 0.0;
    assert forall yy, xx :: InWindow(1, 2, 1, 1, 0, xx, yy) ==> yy == 0 && (xx == 0 || xx == 1);
    assert Matched(f, f, 1, 1, 0, 0, 0);
    if Matched(f, f, 1, 1, 0, 1, 0) {
      MatchIsUnique(f, f, 1, 1, 0, 0, 0, 1, 0);
    }
  }
}
