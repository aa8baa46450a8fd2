/** Flow evaluation against a ground-truth homography
    (`evaluateFlowAgainstHomography`): sample the flow field on a stride
    grid, measure each sample's end-point error, and summarise the errors by
    count, mean, median and the share within 2 and 5 pixels. */
module FlowEval {
  import opened Common
  import opened Grid

  /** One vector of a two-channel float flow field (`CV_32FC2`). */
  datatype FlowVector = FlowVector(u: real, v: real)

  /** The summary the evaluator returns, field for field. */
  datatype FlowEvalResult = FlowEvalResult(
    meanError: real,
    medianError: real,
    percentBelow2px: real,
    percentBelow5px: real,
    numSamples: nat)

  /** The assertion on the homography's shape. */
  datatype EvalError = NotThreeByThree

  predicate Is3x3(h: seq<seq<real>>)
  {
    |h| == 3 && forall i :: 0 <= i < 3 ==> |h[i]| == 3
  }

  /** Row `i` of `H * (x, y, 1)`. */
  function Project(h: seq<seq<real>>, i: nat, x: int, y: int): real
    requires Is3x3(h) && i < 3
  {
    h[i][0] * (x as real) + h[i][1] * (y as real) + h[i][2]
  }

  /** The pixels the evaluator samples, in sampling order. */
  function Samples(rows: nat, cols: nat, step: nat): seq<Point>
    requires step >= 1
  {
    ScanGrid(rows, 0, cols, step, 0)
  }

  /** The homography maps every sampled pixel to a finite point: the third
      homogeneous coordinate, which the source divides by, is not zero. */
  predicate FiniteAtSamples(h: seq<seq<real>>, rows: nat, cols: nat, step: nat)
    requires step >= 1
  {
    Is3x3(h) ==> forall k :: 0 <= k < |Samples(rows, cols, step)| ==>
      Project(h, 2, Samples(rows, cols, step)[k].x, Samples(rows, cols, step)[k].y) != 0.0
  }

  /** Squared end-point error of one sample: the squared distance between
      where the flow sends (x, y) and where the homography sends it. */
  function SquaredError(h: seq<seq<real>>, f: FlowVector, x: int, y: int): (d: real)
    requires Is3x3(h) && Project(h, 2, x, y) != 0.0
    ensures d >= 0.0
  {
    var q2 := Project(h, 2, x, y);
    var dx := ((x as real) + f.u) - Project(h, 0, x, y) / q2;
    var dy := ((y as real) + f.v) - Project(h, 1, x, y) / q2;
    Sq(dx) + Sq(dy)
  }

  /** End-point error of one sample, `std::sqrt(dx * dx + dy * dy)`. */
  function SampleError(h: seq<seq<real>>, f: FlowVector, x: int, y: int, sqrt: real -> real): real
    requires Is3x3(h) && Project(h, 2, x, y) != 0.0
  {
    sqrt(SquaredError(h, f, x, y))
  }

  /** Pixel p is inside the field and finite under h. */
  predicate MeasurableAt(flow: array2<FlowVector>, h: seq<seq<real>>, p: Point)
  {
    Is3x3(h) && 0 <= p.y < flow.Length0 && 0 <= p.x < flow.Length1 && Project(h, 2, p.x, p.y) != 0.0
  }

  /** Every pixel of ps is inside the field and finite under h. */
  predicate Measurable(flow: array2<FlowVector>, h: seq<seq<real>>, ps: seq<Point>)
  {
    Is3x3(h) && forall k :: 0 <= k < |ps| ==> MeasurableAt(flow, h, ps[k])
  }

  /** The errors at the pixels ps, in order. */
  function ErrorsAt(flow: array2<FlowVector>, h: seq<seq<real>>, sqrt: real -> real, ps: seq<Point>): (r: seq<real>)
    reads flow
    requires Measurable(flow, h, ps)
    ensures |r| == |ps|
  {
    seq(|ps|, k requires 0 <= k < |ps| reads flow =>
      SampleError(h, flow[ps[k].y, ps[k].x], ps[k].x, ps[k].y, sqrt))
  }

  lemma MeasurableSplit(flow: array2<FlowVector>, h: seq<seq<real>>, a: seq<Point>, b: seq<Point>)
    ensures Measurable(flow, h, a + b) <==> Measurable(flow, h, a) && Measurable(flow, h, b)
  {
    assert forall k :: 0 <= k < |a| ==> (a + b)[k] == a[k];
    assert forall k :: 0 <= k < |b| ==> (a + b)[|a| + k] == b[k];
    if Measurable(flow, h, a) && Measurable(flow, h, b) {
      forall k | 0 <= k < |a + b| ensures MeasurableAt(flow, h, (a + b)[k]) {
        if k >= |a| {
          assert (a + b)[k] == b[k - |a|];
        }
      }
    }
  }

  lemma ErrorsAtAppend(flow: array2<FlowVector>, h: seq<seq<real>>, sqrt: real -> real, a: seq<Point>, b: seq<Point>)
    requires Measurable(flow, h, a) && Measurable(flow, h, b)
    ensures Measurable(flow, h, a + b)
    ensures ErrorsAt(flow, h, sqrt, a + b) == ErrorsAt(flow, h, sqrt, a) + ErrorsAt(flow, h, sqrt, b)
  {
    MeasurableSplit(flow, h, a, b);
    var l, r := ErrorsAt(flow, h, sqrt, a + b), ErrorsAt(flow, h, sqrt, a) + ErrorsAt(flow, h, sqrt, b);
    forall k | 0 <= k < |l| ensures l[k] == r[k] {
      if k < |a| {
        assert (a + b)[k] == a[k];
      } else {
        assert (a + b)[k] == b[k - |a|];
      }
    }
  }

  /** Every sampled pixel is inside the field, and finite under h when the
      homography is. */
  lemma SamplesMeasurable(flow: array2<FlowVector>, h: seq<seq<real>>, step: nat)
    requires step >= 1 && Is3x3(h) && FiniteAtSamples(h, flow.Length0, flow.Length1, step)
    ensures Measurable(flow, h, Samples(flow.Length0, flow.Length1, step))
  {
    var ps := Samples(flow.Length0, flow.Length1, step);
    forall k | 0 <= k < |ps| ensures MeasurableAt(flow, h, ps[k]) {
      assert ps[k] in ps;
      assert Project(h, 2, ps[k].x, ps[k].y) != 0.0;
    }
  }

  /** The `errors` vector the evaluator builds: one end-point error per
      sampled pixel, in sampling order. */
  function SampleErrors(flow: array2<FlowVector>, h: seq<seq<real>>, step: nat, sqrt: real -> real): seq<real>
    reads flow
    requires step >= 1 && Is3x3(h) && FiniteAtSamples(h, flow.Length0, flow.Length1, step)
  {
    var ps := Samples(flow.Length0, flow.Length1, step);
    SamplesMeasurable(flow, h, step);
    ErrorsAt(flow, h, sqrt, ps)
  }

  /** Number of errors that are at most `t`. */
  function CountAtMost(s: seq<real>, t: real): (c: nat)
    ensures c <= |s|
  {
    if |s| == 0 then 0 else (if s[0] <= t then 1 else 0) + CountAtMost(s[1..], t)
  }

  /** Number of errors that are at least `t`. */
  function CountAtLeast(s: seq<real>, t: real): (c: nat)
    ensures c <= |s|
  {
    if |s| == 0 then 0 else (if t <= s[0] then 1 else 0) + CountAtLeast(s[1..], t)
  }

  lemma {:induction false} CountAppend(a: seq<real>, b: seq<real>, t: real)
    ensures CountAtMost(a + b, t) == CountAtMost(a, t) + CountAtMost(b, t)
    ensures CountAtLeast(a + b, t) == CountAtLeast(a, t) + CountAtLeast(b, t)
  {
    if |a| == 0 {
      assert a + b == b;
    } else {
      assert (a + b)[1..] == a[1..] + b;
      CountAppend(a[1..], b, t);
    }
  }

  predicate IsSorted(s: seq<real>)
  {
    forall i, j :: 0 <= i < j < |s| ==> s[i] <= s[j]
  }

  /** Place x before the first element of s that is not smaller than it. */
  function Insert(x: real, s: seq<real>): (r: seq<real>)
    ensures multiset(r) == multiset(s) + multiset{x}
    ensures IsSorted(s) ==> IsSorted(r)
  {
    if |s| == 0 || x <= s[0] then
      [x] + s
    else
      var rest := Insert(x, s[1..]);
      InsertBehind(x, s, rest);
      [s[0]] + rest
  }

  /** Putting the head of s before x inserted into the tail of s gives x
      inserted into s, ascending when s is. */
  lemma InsertBehind(x: real, s: seq<real>, rest: seq<real>)
    requires |s| > 0 && s[0] < x
    requires multiset(rest) == multiset(s[1..]) + multiset{x}
    requires IsSorted(s[1..]) ==> IsSorted(rest)
    ensures multiset([s[0]] + rest) == multiset(s) + multiset{x}
    ensures IsSorted(s) ==> IsSorted([s[0]] + rest)
  {
    assert s == [s[0]] + s[1..];
    if IsSorted(s) {
      SortedTail(s);
      HeadBelowRest(x, s, rest);
      ConsSorted(s[0], rest);
    }
  }

  /** The head of an ascending s is below every element of the tail with x
      added, when it is below x. */
  lemma HeadBelowRest(x: real, s: seq<real>, rest: seq<real>)
    requires |s| > 0 && s[0] < x && IsSorted(s)
    requires multiset(rest) == multiset(s[1..]) + multiset{x}
    ensures forall k :: 0 <= k < |rest| ==> s[0] <= rest[k]
  {
    forall k | 0 <= k < |rest| ensures s[0] <= rest[k] {
      assert rest[k] in multiset(rest);
      if rest[k] != x {
        assert rest[k] in multiset(s[1..]);
        var i :| 0 <= i < |s[1..]| && s[1..][i] == rest[k];
        assert s[1..][i] == s[i + 1];
      }
    }
  }

  /** A lower bound of an ascending sequence can go in front of it. */
  lemma ConsSorted(y: real, rest: seq<real>)
    requires IsSorted(rest) && forall k :: 0 <= k < |rest| ==> y <= rest[k]
    ensures IsSorted([y] + rest)
  {
    var r := [y] + rest;
    forall i, j | 0 <= i < j < |r| ensures r[i] <= r[j] {
      assert r[j] == rest[j - 1];
      if i > 0 {
        assert r[i] == rest[i - 1];
      }
    }
  }

  /** Inserting x adds one to a count exactly when x meets its threshold. */
  lemma {:induction false} InsertCounts(x: real, s: seq<real>, t: real)
    ensures CountAtMost(Insert(x, s), t) == CountAtMost(s, t) + (if x <= t then 1 else 0)
    ensures CountAtLeast(Insert(x, s), t) == CountAtLeast(s, t) + (if t <= x then 1 else 0)
  {
    if |s| == 0 || x <= s[0] {
      assert ([x] + s)[1..] == s;
    } else {
      var rest := Insert(x, s[1..]);
      assert ([s[0]] + rest)[1..] == rest;
      InsertCounts(x, s[1..], t);
    }
  }

  /** The ascending order of the errors (what `std::sort` leaves behind),
      defined by insertion. */
  function SortedOf(s: seq<real>): (r: seq<real>)
    ensures |r| == |s| && IsSorted(r) && multiset(r) == multiset(s)
  {
    if |s| == 0 then []
    else
      assert s == [s[0]] + s[1..];
      assert multiset(s) == multiset(s[1..]) + multiset{s[0]};
      Insert(s[0], SortedOf(s[1..]))
  }

  /** Sorting keeps how many errors fall at or below, and at or above, any
      threshold. */
  lemma {:induction false} SortedOfCounts(s: seq<real>, t: real)
    ensures CountAtMost(SortedOf(s), t) == CountAtMost(s, t)
    ensures CountAtLeast(SortedOf(s), t) == CountAtLeast(s, t)
  {
    if |s| > 0 {
      SortedOfCounts(s[1..], t);
      InsertCounts(s[0], SortedOf(s[1..]), t);
    }
  }

  /** Two ascending sequences with the same elements are the same sequence,
      so any correct sort leaves the errors in the order SortedOf gives. */
  lemma {:induction false} SortedUnique(a: seq<real>, b: seq<real>)
    requires IsSorted(a) && IsSorted(b) && multiset(a) == multiset(b)
    ensures a == b
  {
    assert |a| == |multiset(a)| == |multiset(b)| == |b|;
    if |a| > 0 {
      assert a[0] in multiset(a) && b[0] in multiset(b);
      SortedHeadLeast(b, a[0]);
      SortedHeadLeast(a, b[0]);
      SortedTail(a);
      SortedTail(b);
      assert a[0] == b[0];
      SortedUnique(a[1..], b[1..]);
      forall k | 1 <= k < |a| ensures a[k] == b[k] {
        assert a[k] == a[1..][k - 1] && b[k] == b[1..][k - 1];
      }
    }
  }

  /** The head of an ascending sequence is its least element. */
  lemma SortedHeadLeast(s: seq<real>, v: real)
    requires IsSorted(s) && v in multiset(s)
    ensures s[0] <= v
  {
    var i :| 0 <= i < |s| && s[i] == v;
    if i > 0 {
      assert s[0] <= s[i];
    }
  }

  /** Dropping the head keeps a sequence ascending and removes one copy of
      the head from its elements. */
  lemma SortedTail(s: seq<real>)
    requires IsSorted(s) && |s| > 0
    ensures IsSorted(s[1..])
    ensures multiset(s[1..]) == multiset(s) - multiset{s[0]}
  {
    assert s == [s[0]] + s[1..];
    forall i, j | 0 <= i < j < |s| - 1 ensures s[1..][i] <= s[1..][j] {
      assert s[1..][i] == s[i + 1] && s[1..][j] == s[j + 1];
    }
  }

  /** Middle element of an ascending sequence, or the average of the two
      middle elements when the count is even. */
  function MedianOfSorted(s: seq<real>): real
    requires |s| > 0
  {
    if |s| % 2 == 1 then s[|s| / 2] else 0.5 * (s[|s| / 2 - 1] + s[|s| / 2])
  }

  /** `100.0 * count / n` in double arithmetic. */
  function Percent(count: nat, n: nat): real
    requires n > 0
  {
    100.0 * (count as real) / (n as real)
  }

  /** The statistics of a list of per-sample errors, all zero for no samples. */
  function Summarize(errors: seq<real>): FlowEvalResult
  {
    if |errors| == 0 then FlowEvalResult(0.0, 0.0, 0.0, 0.0, 0)
    else
      var n := |errors| as real;
      var sorted := SortedOf(errors);
      FlowEvalResult(
        Sum(errors) / n,
        MedianOfSorted(sorted),
        Percent(CountAtMost(sorted, 2.0), |errors|),
        Percent(CountAtMost(sorted, 5.0), |errors|),
        |errors|)
  }

  /** `std::sort` on the error buffer, here an in-place insertion sort. */
  method SortAscending(a: array<real>)
    modifies a
    ensures a[..] == SortedOf(old(a[..]))
  {
    var i := 0;
    while i < a.Length
      invariant 0 <= i <= a.Length
      invariant IsSorted(a[..i])
      invariant multiset(a[..]) == multiset(old(a[..]))
    {
      SinkLast(a, i);
      i := i + 1;
    }
    assert a[..a.Length] == a[..];
    SortedUnique(a[..], SortedOf(old(a[..])));
  }

  /** One insertion step: swap a[i] down into the sorted prefix a[..i]. */
  method SinkLast(a: array<real>, i: nat)
    requires i < a.Length && IsSorted(a[..i])
    modifies a
    ensures IsSorted(a[..i + 1])
    ensures multiset(a[..]) == multiset(old(a[..]))
  {
    var j := i;
    SinkStart(a[..], i);
    while j > 0 && a[j - 1] > a[j]
      invariant 0 <= j <= i
      invariant Sinking(a[..], i, j)
      invariant multiset(a[..]) == multiset(old(a[..]))
    {
      ghost var before := a[..];
      SinkStep(before, i, j);
      a[j - 1], a[j] := a[j], a[j - 1];
      assert a[..] == Swapped(before, j - 1, j);
      j := j - 1;
    }
    SinkDone(a[..], i, j);
  }

  /** While a[i] sinks to position j, the first i + 1 elements without
      position j are ascending and everything after j is at least a[j]. */
  ghost predicate Sinking(s: seq<real>, i: nat, j: nat)
    requires j <= i < |s|
  {
    && (forall k, l :: 0 <= k < l <= i && k != j && l != j ==> s[k] <= s[l])
    && (forall l :: j < l <= i ==> s[j] <= s[l])
  }

  /** s with positions p and q exchanged. */
  function Swapped(s: seq<real>, p: nat, q: nat): (r: seq<real>)
    requires p < |s| && q < |s|
    ensures multiset(r) == multiset(s)
  {
    s[p := s[q]][q := s[p]]
  }

  lemma SinkStart(s: seq<real>, i: nat)
    requires i < |s| && IsSorted(s[..i])
    ensures Sinking(s, i, i)
  {
    forall k, l | 0 <= k < l <= i && k != i && l != i ensures s[k] <= s[l] {
      assert s[..i][k] == s[k] && s[..i][l] == s[l];
    }
  }

  lemma SinkStep(s: seq<real>, i: nat, j: nat)
    requires 0 < j <= i < |s| && Sinking(s, i, j) && s[j - 1] > s[j]
    ensures Sinking(Swapped(s, j - 1, j), i, j - 1)
  {
    var t := Swapped(s, j - 1, j);
    forall k, l | 0 <= k < l <= i && k != j - 1 && l != j - 1 ensures t[k] <= t[l] {
      if l == j {
        assert t[l] == s[j - 1];
        if k < j - 1 {
          assert s[k] <= s[j - 1];
        }
      } else if k == j {
        assert s[j - 1] <= s[l];
      } else {
        assert t[k] == s[k] && t[l] == s[l];
      }
    }
    forall l | j - 1 < l <= i ensures t[j - 1] <= t[l] {
      if l == j {
        assert t[l] == s[j - 1];
      }
    }
  }

  lemma SinkDone(s: seq<real>, i: nat, j: nat)
    requires j <= i < |s| && Sinking(s, i, j) && (j == 0 || s[j - 1] <= s[j])
    ensures IsSorted(s[..i + 1])
  {
    forall k, l | 0 <= k < l <= i ensures s[k] <= s[l] {
      if k == j {
      } else if l == j {
        if k < j - 1 {
          assert s[k] <= s[j - 1];
        }
      }
    }
  }

  /** The inner sampling loop: the errors of row y at columns 0, step,
      2 step, ... in order. */
  method CollectRow(flow: array2<FlowVector>, h: seq<seq<real>>, step: nat, sqrt: real -> real, y: int)
    returns (row: seq<real>)
    requires step >= 1 && 0 <= y < flow.Length0
    requires Measurable(flow, h, ScanRow(flow.Length1, step, y, 0))
    ensures row == ErrorsAt(flow, h, sqrt, ScanRow(flow.Length1, step, y, 0))
  {
    ghost var done: seq<Point> := [];
    row := [];
    var x := 0;
    while x < flow.Length1
      invariant 0 <= x
      invariant done + ScanRow(flow.Length1, step, y, x) == ScanRow(flow.Length1, step, y, 0)
      invariant Measurable(flow, h, done) && row == ErrorsAt(flow, h, sqrt, done)
      decreases flow.Length1 - x
    {
      ghost var rest := ScanRow(flow.Length1, step, y, x + step);
      assert ScanRow(flow.Length1, step, y, x) == [Point(x, y)] + rest;
      assert done + ScanRow(flow.Length1, step, y, x) == (done + [Point(x, y)]) + rest;
      MeasurableSplit(flow, h, done + [Point(x, y)], rest);
      MeasurableSplit(flow, h, done, [Point(x, y)]);
      ErrorsAtAppend(flow, h, sqrt, done, [Point(x, y)]);
      assert [Point(x, y)][0] == Point(x, y);
      var e := SampleError(h, flow[y, x], x, y, sqrt);
      row := row + [e];
      done := done + [Point(x, y)];
      x := x + step;
    }
    assert done == done + ScanRow(flow.Length1, step, y, x);
  }

  /** The sampling loops: visit rows 0, step, 2 step, ... and append each
      row's errors. */
  method CollectErrors(flow: array2<FlowVector>, h: seq<seq<real>>, step: nat, sqrt: real -> real)
    returns (errors: seq<real>)
    requires step >= 1 && Is3x3(h) && FiniteAtSamples(h, flow.Length0, flow.Length1, step)
    ensures errors == SampleErrors(flow, h, step, sqrt)
  {
    ghost var all := Samples(flow.Length0, flow.Length1, step);
    SamplesMeasurable(flow, h, step);
    ghost var done: seq<Point> := [];
    errors := [];
    var y := 0;
    while y < flow.Length0
      invariant 0 <= y
      invariant done + ScanGrid(flow.Length0, 0, flow.Length1, step, y) == all
      invariant Measurable(flow, h, done) && errors == ErrorsAt(flow, h, sqrt, done)
      decreases flow.Length0 - y
    {
      RowMeasurable(flow, h, step, y, done, all);
      var row := CollectRow(flow, h, step, sqrt, y);
      done := GridStep(flow, h, sqrt, step, y, done, all, errors, row);
      errors := errors + row;
      y := y + step;
    }
    assert done == done + ScanGrid(flow.Length0, 0, flow.Length1, step, y);
  }

  /** The row the loop is about to scan is measurable. */
  lemma RowMeasurable(flow: array2<FlowVector>, h: seq<seq<real>>, step: nat, y: int, done: seq<Point>, all: seq<Point>)
    requires step >= 1 && y < flow.Length0
    requires done + ScanGrid(flow.Length0, 0, flow.Length1, step, y) == all && Measurable(flow, h, all)
    ensures Measurable(flow, h, ScanRow(flow.Length1, step, y, 0))
  {
    var rowPoints := ScanRow(flow.Length1, step, y, 0);
    var rest := ScanGrid(flow.Length0, 0, flow.Length1, step, y + step);
    assert all == done + (rowPoints + rest);
    MeasurableSplit(flow, h, done, rowPoints + rest);
    MeasurableSplit(flow, h, rowPoints, rest);
  }

  /** Appending a row's errors advances the scan by one row. */
  lemma GridStep(flow: array2<FlowVector>, h: seq<seq<real>>, sqrt: real -> real, step: nat, y: int,
                 done: seq<Point>, all: seq<Point>, errors: seq<real>, row: seq<real>) returns (done': seq<Point>)
    requires step >= 1 && y < flow.Length0
    requires done + ScanGrid(flow.Length0, 0, flow.Length1, step, y) == all
    requires Measurable(flow, h, done) && errors == ErrorsAt(flow, h, sqrt, done)
    requires Measurable(flow, h, ScanRow(flow.Length1, step, y, 0))
    requires row == ErrorsAt(flow, h, sqrt, ScanRow(flow.Length1, step, y, 0))
    ensures done' + ScanGrid(flow.Length0, 0, flow.Length1, step, y + step) == all
    ensures Measurable(flow, h, done') && errors + row == ErrorsAt(flow, h, sqrt, done')
  {
    var rowPoints := ScanRow(flow.Length1, step, y, 0);
    done' := done + rowPoints;
    assert all == done' + ScanGrid(flow.Length0, 0, flow.Length1, step, y + step);
    ErrorsAtAppend(flow, h, sqrt, done, rowPoints);
  }

  /** The accumulation loop `for (double e : errors) sum += e`. */
  method SumErrors(errors: seq<real>) returns (sum: real)
    ensures sum == Sum(errors)
  {
    sum := 0.0;
    var i := 0;
    while i < |errors|
      invariant 0 <= i <= |errors|
      invariant sum == Sum(errors[..i])
    {
      SumAppend(errors[..i], [errors[i]]);
      assert errors[..i + 1] == errors[..i] + [errors[i]];
      sum := sum + errors[i];
      i := i + 1;
    }
    assert errors[..|errors|] == errors;
  }

  /** The counting loop over the sorted errors: how many are within 2 and
      within 5 pixels. */
  method CountWithin(a: array<real>) returns (count2: nat, count5: nat)
    ensures count2 == CountAtMost(a[..], 2.0) && count5 == CountAtMost(a[..], 5.0)
  {
    count2, count5 := 0, 0;
    var i := 0;
    while i < a.Length
      invariant 0 <= i <= a.Length
      invariant count2 == CountAtMost(a[..i], 2.0)
      invariant count5 == CountAtMost(a[..i], 5.0)
    {
      CountAppend(a[..i], [a[i]], 2.0);
      CountAppend(a[..i], [a[i]], 5.0);
      assert a[..i + 1] == a[..i] + [a[i]];
      if a[i] <= 2.0 {
        count2 := count2 + 1;
      }
      if a[i] <= 5.0 {
        count5 := count5 + 1;
      }
      i := i + 1;
    }
    assert a[..a.Length] == a[..];
  }

  /** The statistics part of the evaluator: mean of the errors in sampling
      order, then sort, median, and the two percentages. */
  method SummarizeErrors(errors: seq<real>) returns (r: FlowEvalResult)
    ensures r == Summarize(errors)
  {
    var n := |errors|;
    if n == 0 {
      return FlowEvalResult(0.0, 0.0, 0.0, 0.0, 0);
    }
    var sum := SumErrors(errors);
    var mean := sum / (n as real);
    var median, count2, count5 := SortedStatistics(errors);
    var p2 := Percent(count2, n);
    var p5 := Percent(count5, n);
    r := FlowEvalResult(mean, median, p2, p5, n);
  }

  /** Copy the errors into a buffer, sort it, and read off the median and
      the two counts from the sorted buffer. */
  method SortedStatistics(errors: seq<real>) returns (median: real, count2: nat, count5: nat)
    requires |errors| > 0
    ensures median == MedianOfSorted(SortedOf(errors))
    ensures count2 == CountAtMost(SortedOf(errors), 2.0)
    ensures count5 == CountAtMost(SortedOf(errors), 5.0)
  {
    var n := |errors|;
    var buffer := new real[n](k requires 0 <= k < n => errors[k]);
    assert buffer[..] == errors;
    SortAscending(buffer);
    if n % 2 == 1 {
      median := buffer[n / 2];
    } else {
      median := 0.5 * (buffer[n / 2 - 1] + buffer[n / 2]);
    }
    count2, count5 := CountWithin(buffer);
  }

  /** `evaluateFlowAgainstHomography`: reject a homography that is not 3 x 3,
      collect the sample errors, and summarise them. */
  method EvaluateFlowAgainstHomography(flow: array2<FlowVector>, h: seq<seq<real>>, step: nat, sqrt: real -> real)
    returns (res: Result<FlowEvalResult, EvalError>)
    requires step >= 1 && FiniteAtSamples(h, flow.Length0, flow.Length1, step)
    ensures res.Failure? <==> !Is3x3(h)
    ensures res.Success? ==> res.value == Summarize(SampleErrors(flow, h, step, sqrt))
  {
    if !Is3x3(h) {
      return Failure(NotThreeByThree);
    }
    var errors := CollectErrors(flow, h, step, sqrt);
    var summary := SummarizeErrors(errors);
    return Success(summary);
  }

  /** The evaluator takes ceil(H / step) * ceil(W / step) samples, and none
      exactly when the field is empty. */
  lemma SampleCount(rows: nat, cols: nat, step: nat)
    requires step >= 1
    ensures |Samples(rows, cols, step)| == CeilDiv(rows, step) * CeilDiv(cols, step)
    ensures |Samples(rows, cols, step)| == 0 <==> rows == 0 || cols == 0
  {
    ScanGridLength(rows, 0, cols, step, 0);
    StrideCountFromZero(rows, step);
    StrideCountFromZero(cols, step);
    var a, b := CeilDiv(rows, step), CeilDiv(cols, step);
    if a > 0 && b > 0 {
      MulAtLeast(a, b);
    }
  }

  /** Sample number r * ceil(W / step) + c is pixel (c * step, r * step):
      rows outer, columns inner, every `step` pixels. */
  lemma SampleAt(rows: nat, cols: nat, step: nat, r: nat, c: nat)
    requires step >= 1 && r * step < rows && c * step < cols
    ensures r * CeilDiv(cols, step) + c < |Samples(rows, cols, step)|
    ensures Samples(rows, cols, step)[r * CeilDiv(cols, step) + c] == Point(c * step, r * step)
  {
    ScanGridAt(rows, 0, cols, step, 0, r, c);
  }

  /** A pixel is sampled exactly when it lies in the field and both of its
      coordinates are multiples of the stride. */
  lemma SampledIff(rows: nat, cols: nat, step: nat, p: Point)
    requires step >= 1
    ensures p in Samples(rows, cols, step) <==>
      0 <= p.x < cols && 0 <= p.y < rows && p.x % step == 0 && p.y % step == 0
  {
    ScanGridMember(rows, 0, cols, step, 0, p);
  }

  /** With no rows or no columns nothing is sampled, and every statistic is 0. */
  lemma EmptyFieldSummary(flow: array2<FlowVector>, h: seq<seq<real>>, step: nat, sqrt: real -> real)
    requires step >= 1 && Is3x3(h) && FiniteAtSamples(h, flow.Length0, flow.Length1, step)
    ensures |SampleErrors(flow, h, step, sqrt)| == CeilDiv(flow.Length0, step) * CeilDiv(flow.Length1, step)
    ensures flow.Length0 == 0 || flow.Length1 == 0 <==>
      Summarize(SampleErrors(flow, h, step, sqrt)) == FlowEvalResult(0.0, 0.0, 0.0, 0.0, 0)
  {
    SampleCount(flow.Length0, flow.Length1, step);
  }

  /** Sample number r * ceil(W / step) + c is the error at pixel
      (c * step, r * step). */
  lemma SampleErrorAt(flow: array2<FlowVector>, h: seq<seq<real>>, step: nat, sqrt: real -> real, r: nat, c: nat)
    requires step >= 1 && Is3x3(h) && FiniteAtSamples(h, flow.Length0, flow.Length1, step)
    requires r * step < flow.Length0 && c * step < flow.Length1
    ensures r * CeilDiv(flow.Length1, step) + c < |SampleErrors(flow, h, step, sqrt)|
    ensures Project(h, 2, c * step, r * step) != 0.0
    ensures SampleErrors(flow, h, step, sqrt)[r * CeilDiv(flow.Length1, step) + c] ==
      SampleError(h, flow[r * step, c * step], c * step, r * step, sqrt)
  {
    var i := r * CeilDiv(flow.Length1, step) + c;
    SampleAt(flow.Length0, flow.Length1, step, r, c);
    assert Samples(flow.Length0, flow.Length1, step)[i] in Samples(flow.Length0, flow.Length1, step);
  }

  /** The flow sends (x, y) exactly where the homography does. */
  predicate PredictionExact(h: seq<seq<real>>, f: FlowVector, x: int, y: int)
    requires Is3x3(h) && Project(h, 2, x, y) != 0.0
  {
    var q2 := Project(h, 2, x, y);
    (x as real) + f.u == Project(h, 0, x, y) / q2 && (y as real) + f.v == Project(h, 1, x, y) / q2
  }

  /** A sample error is never negative, and it is zero exactly when the
      predicted point is the ground-truth point, in which case it counts as
      within 2 and within 5 pixels. */
  lemma SampleErrorZero(h: seq<seq<real>>, f: FlowVector, x: int, y: int, sqrt: real -> real)
    requires Is3x3(h) && Project(h, 2, x, y) != 0.0 && IsSqrt(sqrt)
    ensures SampleError(h, f, x, y, sqrt) >= 0.0
    ensures SampleError(h, f, x, y, sqrt) == 0.0 <==> PredictionExact(h, f, x, y)
    ensures PredictionExact(h, f, x, y) ==>
      SampleError(h, f, x, y, sqrt) <= 2.0 && SampleError(h, f, x, y, sqrt) <= 5.0
  {
    var q2 := Project(h, 2, x, y);
    var dx := ((x as real) + f.u) - Project(h, 0, x, y) / q2;
    var dy := ((y as real) + f.v) - Project(h, 1, x, y) / q2;
    var d := SquaredError(h, f, x, y);
    var e := sqrt(d);
    assert d == Sq(dx) + Sq(dy);
    assert e >= 0.0 && Sq(e) == d;
    if e == 0.0 {
      assert d == 0.0;
      if dx != 0.0 {
        SquareNonZero(dx);
      }
      if dy != 0.0 {
        SquareNonZero(dy);
      }
    }
    if PredictionExact(h, f, x, y) {
      assert dx == 0.0 && dy == 0.0;
      if e != 0.0 {
        SquareNonZero(e);
      }
    }
  }

  /** With a genuine square root every collected error is non-negative. */
  lemma SampleErrorsNonNegative(flow: array2<FlowVector>, h: seq<seq<real>>, step: nat, sqrt: real -> real)
    requires step >= 1 && Is3x3(h) && FiniteAtSamples(h, flow.Length0, flow.Length1, step) && IsSqrt(sqrt)
    ensures forall k :: 0 <= k < |SampleErrors(flow, h, step, sqrt)| ==> SampleErrors(flow, h, step, sqrt)[k] >= 0.0
  {
    var ps := Samples(flow.Length0, flow.Length1, step);
    var errors := SampleErrors(flow, h, step, sqrt);
    forall k | 0 <= k < |errors| ensures errors[k] >= 0.0 {
      assert ps[k] in ps;
      SampleErrorZero(h, flow[ps[k].y, ps[k].x], ps[k].x, ps[k].y, sqrt);
    }
  }

  /** Every element of s lies in [lo, hi]. */
  predicate Within(s: seq<real>, lo: real, hi: real)
  {
    forall k :: 0 <= k < |s| ==> lo <= s[k] <= hi
  }

  lemma {:induction false} SumBounds(s: seq<real>, lo: real, hi: real)
    requires Within(s, lo, hi)
    ensures (|s| as real) * lo <= Sum(s) <= (|s| as real) * hi
  {
    if |s| > 0 {
      assert Within(s[1..], lo, hi) by {
        forall k | 0 <= k < |s| - 1 ensures lo <= s[1..][k] <= hi {
          assert s[1..][k] == s[k + 1];
        }
      }
      SumBounds(s[1..], lo, hi);
      assert (|s| as real) * lo == lo + ((|s| - 1) as real) * lo;
      assert (|s| as real) * hi == hi + ((|s| - 1) as real) * hi;
    }
  }

  lemma MeanBounds(total: real, n: nat, lo: real, hi: real)
    requires n > 0 && (n as real) * lo <= total <= (n as real) * hi
    ensures lo <= total / (n as real) <= hi
  {
  }

  lemma WithinSorted(s: seq<real>, lo: real, hi: real)
    requires Within(s, lo, hi)
    ensures Within(SortedOf(s), lo, hi)
  {
    var t := SortedOf(s);
    forall k | 0 <= k < |t| ensures lo <= t[k] <= hi {
      assert t[k] in multiset(t);
      assert t[k] in multiset(s);
    }
  }

  /** A higher threshold never counts fewer errors. */
  lemma {:induction false} CountMonotone(s: seq<real>, t1: real, t2: real)
    requires t1 <= t2
    ensures CountAtMost(s, t1) <= CountAtMost(s, t2)
  {
    if |s| > 0 {
      CountMonotone(s[1..], t1, t2);
    }
  }

  lemma PercentBounds(c1: nat, c2: nat, n: nat)
    requires c1 <= c2 <= n && n > 0
    ensures 0.0 <= Percent(c1, n) <= Percent(c2, n) <= 100.0
  {
    var inv := 1.0 / (n as real);
    assert Percent(c1, n) == 100.0 * (c1 as real) * inv;
    assert Percent(c2, n) == 100.0 * (c2 as real) * inv;
    assert 100.0 * (n as real) * inv == 100.0;
    assert 0.0 <= (c1 as real) <= (c2 as real) <= (n as real) && inv > 0.0;
    ScaleMonotone(100.0 * (c1 as real), 100.0 * (c2 as real), inv);
    ScaleMonotone(100.0 * (c2 as real), 100.0 * (n as real), inv);
  }

  /** Multiplying by a positive factor keeps the order. */
  lemma ScaleMonotone(a: real, b: real, k: real)
    requires a <= b && k > 0.0
    ensures a * k <= b * k
  {
    assert b * k - a * k == (b - a) * k;
  }

  /** For errors in [lo, hi] the mean and the median lie in [lo, hi], the
      sample count is the number of errors, and
      0 <= percentBelow2px <= percentBelow5px <= 100. */
  lemma SummaryBounds(errors: seq<real>, lo: real, hi: real)
    requires |errors| > 0 && Within(errors, lo, hi)
    ensures var r := Summarize(errors);
      && r.numSamples == |errors|
      && lo <= r.meanError <= hi
      && lo <= r.medianError <= hi
      && 0.0 <= r.percentBelow2px <= r.percentBelow5px <= 100.0
  {
    var sorted := SortedOf(errors);
    MeanWithin(errors, lo, hi);
    WithinSorted(errors, lo, hi);
    MedianWithin(sorted, lo, hi);
    PercentsOrdered(sorted);
  }

  /** The mean of values in [lo, hi] lies in [lo, hi]. */
  lemma MeanWithin(s: seq<real>, lo: real, hi: real)
    requires |s| > 0 && Within(s, lo, hi)
    ensures lo <= Sum(s) / (|s| as real) <= hi
  {
    SumBounds(s, lo, hi);
    MeanBounds(Sum(s), |s|, lo, hi);
  }

  /** Within 2 pixels is never a larger share than within 5 pixels, and
      both shares are percentages. */
  lemma PercentsOrdered(s: seq<real>)
    requires |s| > 0
    ensures 0.0 <= Percent(CountAtMost(s, 2.0), |s|) <= Percent(CountAtMost(s, 5.0), |s|) <= 100.0
  {
    CountMonotone(s, 2.0, 5.0);
    PercentBounds(CountAtMost(s, 2.0), CountAtMost(s, 5.0), |s|);
  }

  /** The median of values in [lo, hi] lies in [lo, hi]. */
  lemma MedianWithin(s: seq<real>, lo: real, hi: real)
    requires |s| > 0 && Within(s, lo, hi)
    ensures lo <= MedianOfSorted(s) <= hi
  {
    assert lo <= s[|s| / 2] <= hi;
    if |s| % 2 == 0 {
      assert lo <= s[|s| / 2 - 1] <= hi;
    }
  }

  /** All elements at most t: every one of them is counted. */
  lemma {:induction false} CountAllAtMost(s: seq<real>, t: real)
    requires forall k :: 0 <= k < |s| ==> s[k] <= t
    ensures CountAtMost(s, t) == |s|
  {
    if |s| > 0 {
      assert forall k :: 0 <= k < |s| - 1 ==> s[1..][k] == s[k + 1];
      CountAllAtMost(s[1..], t);
    }
  }

  /** All elements at least t: every one of them is counted. */
  lemma {:induction false} CountAllAtLeast(s: seq<real>, t: real)
    requires forall k :: 0 <= k < |s| ==> t <= s[k]
    ensures CountAtLeast(s, t) == |s|
  {
    if |s| > 0 {
      assert forall k :: 0 <= k < |s| - 1 ==> s[1..][k] == s[k + 1];
      CountAllAtLeast(s[1..], t);
    }
  }

  /** When the first lo elements are at most t, at least lo are counted. */
  lemma PrefixCountAtMost(s: seq<real>, lo: nat, t: real)
    requires lo <= |s| && forall k :: 0 <= k < lo ==> s[k] <= t
    ensures CountAtMost(s, t) >= lo
  {
    assert s[..lo] + s[lo..] == s;
    CountAllAtMost(s[..lo], t);
    CountAppend(s[..lo], s[lo..], t);
  }

  /** When the elements from hi on are at least t, at least |s| - hi are counted. */
  lemma SuffixCountAtLeast(s: seq<real>, hi: nat, t: real)
    requires hi <= |s| && forall k :: hi <= k < |s| ==> t <= s[k]
    ensures CountAtLeast(s, t) >= |s| - hi
  {
    assert s[..hi] + s[hi..] == s;
    CountAllAtLeast(s[hi..], t);
    CountAppend(s[..hi], s[hi..], t);
  }

  /** In an ascending sequence at least half the elements are at most its
      median and at least half are at least it. */
  lemma MedianSplitsSorted(s: seq<real>)
    requires |s| > 0 && IsSorted(s)
    ensures 2 * CountAtMost(s, MedianOfSorted(s)) >= |s|
    ensures 2 * CountAtLeast(s, MedianOfSorted(s)) >= |s|
  {
    var m := MedianOfSorted(s);
    var n := |s|;
    var hi := n / 2;
    var lo;
    if n % 2 == 1 {
      lo := hi + 1;
      assert m == s[hi];
    } else {
      lo := hi;
      assert m == 0.5 * (s[hi - 1] + s[hi]);
      assert s[hi - 1] <= s[hi];
    }
    assert 2 * lo >= n && 2 * (n - hi) >= n;
    assert s[lo - 1] <= m <= s[hi];
    forall k | 0 <= k < lo ensures s[k] <= m {
      assert s[k] <= s[lo - 1];
    }
    forall k | hi <= k < n ensures m <= s[k] {
      assert s[hi] <= s[k];
    }
    PrefixCountAtMost(s, lo, m);
    SuffixCountAtLeast(s, hi, m);
  }

  /** The median splits the samples: at least half of them are at most the
      median and at least half are at least the median. */
  lemma MedianSplitsSamples(errors: seq<real>)
    requires |errors| > 0
    ensures 2 * CountAtMost(errors, Summarize(errors).medianError) >= |errors|
    ensures 2 * CountAtLeast(errors, Summarize(errors).medianError) >= |errors|
  {
    var n := |errors|;
    var s := SortedOf(errors);
    var m := MedianOfSorted(s);
    assert Summarize(errors).medianError == m;
    MedianSplitsSorted(s);
    SortedOfCounts(errors, m);
  }
}
