/** Shared PCA reduction of two descriptor stacks (`dimReduce`): a sample
    of columns from both images is handed to PCA, and both stacks are
    projected onto the same basis. PCA and the random shuffle are library
    routines and enter as inputs: the shuffle as the permutation it applies,
    PCA as a function from the sample rows and the component count to the
    eigenvectors. */
module DimReduce {
  import opened Common

  /** The two options the reduction reads. */
  datatype Options = Options(dimReduction: int, dimReductionCov: int)

  /** The reduced stacks and the basis; the basis is the empty matrix when
      no reduction takes place. */
  datatype Reduced = Reduced(reduced1: ColMatrix, reduced2: ColMatrix, basis: ColMatrix)

  datatype ReduceError =
    | ColumnOutOfRange  // `dpMat.col(j)` with j past the last column
    | WidthMismatch     // a `push_back` of a row of another width, or a product of mismatched sizes

  // ---------------------------------------------------------------------
  // Index lists
  // ---------------------------------------------------------------------

  /** 0, 1, ..., n - 1. */
  function Identity(n: nat): seq<nat>
  {
    seq(n, i requires 0 <= i < n => i)
  }

  /** sigma rearranges the positions 0 .. n - 1. */
  ghost predicate IsPermutation(sigma: seq<nat>, n: nat)
  {
    && |sigma| == n
    && (forall i :: 0 <= i < n ==> sigma[i] < n)
    && multiset(sigma) == multiset(Identity(n))
  }

  /** `cv::randShuffle`, given the permutation it applies: entry i of the
      result is entry sigma[i] of the input. */
  function Shuffled(s: seq<nat>, sigma: seq<nat>): seq<nat>
    requires IsPermutation(sigma, |s|)
  {
    seq(|s|, i requires 0 <= i < |s| => s[sigma[i]])
  }

  /** `std::vector<int>::resize(m)`: cut to m entries, or pad with
      value-initialised entries, which are 0. */
  function Resize(s: seq<nat>, m: nat): seq<nat>
  {
    if m <= |s| then s[..m] else s + seq(m - |s|, _ => 0)
  }

  /** The index lists after the sampling budget: when the columns of both
      images exceed a positive budget, the lists are resized to half of it
      (rounded down) and the rest. */
  function Budgeted(idx1: seq<nat>, idx2: seq<nat>, totalCols: int): (seq<nat>, seq<nat>)
  {
    if totalCols > 0 && |idx1| + |idx2| > totalCols then
      (Resize(idx1, totalCols / 2), Resize(idx2, totalCols - totalCols / 2))
    else
      (idx1, idx2)
  }

  /** The sampled index lists of both images. */
  function SampledIndices(n1: nat, n2: nat, totalCols: int, sigma1: seq<nat>, sigma2: seq<nat>): (seq<nat>, seq<nat>)
    requires IsPermutation(sigma1, n1) && IsPermutation(sigma2, n2)
  {
    Budgeted(Shuffled(Identity(n1), sigma1), Shuffled(Identity(n2), sigma2), totalCols)
  }

  /** A fresh `std::vector<int>` holding 0, 1, ..., n - 1. */
  method Iota(n: nat) returns (a: array<nat>)
    ensures fresh(a)
    ensures a[..] == Identity(n)
  {
    a := new nat[n];
    for i := 0 to n
      invariant forall k :: 0 <= k < i ==> a[k] == k
    {
      a[i] := i;
    }
  }

  lemma {:induction false} IdentityCount(n: nat, k: nat)
    ensures multiset(Identity(n))[k] == if k < n then 1 else 0
  {
    if n > 0 {
      assert Identity(n) == Identity(n - 1) + [n - 1];
      IdentityCount(n - 1, k);
    }
  }

  /** The shuffled list is a permutation of 0 .. n - 1: it is sigma itself,
      and it holds every index below n exactly once and nothing else. */
  lemma ShuffledIdentity(n: nat, sigma: seq<nat>)
    requires IsPermutation(sigma, n)
    ensures Shuffled(Identity(n), sigma) == sigma
    ensures forall k: nat :: multiset(Shuffled(Identity(n), sigma))[k] == if k < n then 1 else 0
  {
    forall k: nat ensures multiset(sigma)[k] == if k < n then 1 else 0 {
      IdentityCount(n, k);
    }
  }

  /** Resizing keeps the first entries, pads with 0, and has the new size. */
  lemma ResizeShape(s: seq<nat>, m: nat)
    ensures |Resize(s, m)| == m
    ensures forall k :: 0 <= k < m ==> Resize(s, m)[k] == if k < |s| then s[k] else 0
  {
  }

  /** Over budget, the two lists together hold exactly totalCols indices,
      half of it (rounded down) from the first image. */
  lemma BudgetSizes(idx1: seq<nat>, idx2: seq<nat>, totalCols: int)
    requires totalCols > 0 && |idx1| + |idx2| > totalCols
    ensures |Budgeted(idx1, idx2, totalCols).0| == totalCols / 2
    ensures |Budgeted(idx1, idx2, totalCols).1| == totalCols - totalCols / 2
    ensures |Budgeted(idx1, idx2, totalCols).0| + |Budgeted(idx1, idx2, totalCols).1| == totalCols
  {
    ResizeShape(idx1, totalCols / 2);
    ResizeShape(idx2, totalCols - totalCols / 2);
  }

  /** Within budget, every column of both images is sampled exactly once. */
  lemma EveryColumnOnce(n1: nat, n2: nat, totalCols: int, sigma1: seq<nat>, sigma2: seq<nat>)
    requires IsPermutation(sigma1, n1) && IsPermutation(sigma2, n2)
    requires totalCols <= 0 || n1 + n2 <= totalCols
    ensures forall k: nat :: multiset(SampledIndices(n1, n2, totalCols, sigma1, sigma2).0)[k] == if k < n1 then 1 else 0
    ensures forall k: nat :: multiset(SampledIndices(n1, n2, totalCols, sigma1, sigma2).1)[k] == if k < n2 then 1 else 0
  {
    ShuffledIdentity(n1, sigma1);
    ShuffledIdentity(n2, sigma2);
  }

  /** Every index of the list addresses one of n columns. */
  predicate InRange(idx: seq<nat>, n: nat)
  {
    forall k :: 0 <= k < |idx| ==> idx[k] < n
  }

  /** A sampled index lies outside its matrix only when the matrix has no
      columns and the budget pads its list with index 0. */
  lemma SampledInRange(n1: nat, n2: nat, totalCols: int, sigma1: seq<nat>, sigma2: seq<nat>)
    requires IsPermutation(sigma1, n1) && IsPermutation(sigma2, n2)
    ensures InRange(SampledIndices(n1, n2, totalCols, sigma1, sigma2).0, n1) <==>
      n1 > 0 || |SampledIndices(n1, n2, totalCols, sigma1, sigma2).0| == 0
    ensures InRange(SampledIndices(n1, n2, totalCols, sigma1, sigma2).1, n2) <==>
      n2 > 0 || |SampledIndices(n1, n2, totalCols, sigma1, sigma2).1| == 0
  {
    ShuffledIdentity(n1, sigma1);
    ShuffledIdentity(n2, sigma2);
    if totalCols > 0 && n1 + n2 > totalCols {
      ResizeShape(sigma1, totalCols / 2);
      ResizeShape(sigma2, totalCols - totalCols / 2);
    }
    var b := SampledIndices(n1, n2, totalCols, sigma1, sigma2);
    if n1 == 0 && |b.0| > 0 {
      assert !(b.0[0] < n1);
    }
    if n2 == 0 && |b.1| > 0 {
      assert !(b.1[0] < n2);
    }
  }

  // ---------------------------------------------------------------------
  // The sample matrix
  // ---------------------------------------------------------------------

  /** `for (int j : idx) samples.push_back(dpMat.col(j).t())`: each column
      becomes one more row; a missing column or a row of another width than
      the rows already there stops with an error. */
  function PushColumns(samples: seq<seq<real>>, dp: ColMatrix, idx: seq<nat>): Result<seq<seq<real>>, ReduceError>
    decreases |idx|
  {
    if |idx| == 0 then Success(samples)
    else if idx[0] >= |dp.columns| then Failure(ColumnOutOfRange)
    else if |samples| > 0 && |samples[0]| != |dp.columns[idx[0]]| then Failure(WidthMismatch)
    else PushColumns(samples + [dp.columns[idx[0]]], dp, idx[1..])
  }

  /** The columns idx of dp, in the order of idx. */
  function SampleRows(dp: ColMatrix, idx: seq<nat>): seq<seq<real>>
    requires InRange(idx, |dp.columns|)
  {
    seq(|idx|, k requires 0 <= k < |idx| => dp.columns[idx[k]])
  }

  /** Image 1's sampled columns, then image 2's. */
  function SampleMatrix(dp1: ColMatrix, dp2: ColMatrix, idx1: seq<nat>, idx2: seq<nat>): Result<seq<seq<real>>, ReduceError>
  {
    var first := PushColumns([], dp1, idx1);
    if first.Failure? then first else PushColumns(first.value, dp2, idx2)
  }

  /** The loop that pushes the columns idx of dp onto the samples. */
  method PushAll(init: seq<seq<real>>, dp: ColMatrix, idx: seq<nat>) returns (res: Result<seq<seq<real>>, ReduceError>)
    ensures res == PushColumns(init, dp, idx)
  {
    var samples := init;
    for k := 0 to |idx|
      invariant PushColumns(samples, dp, idx[k..]) == PushColumns(init, dp, idx)
    {
      assert idx[k..][1..] == idx[k + 1..];
      var j := idx[k];
      if j >= |dp.columns| {
        return Failure(ColumnOutOfRange);
      }
      if |samples| > 0 && |samples[0]| != |dp.columns[j]| {
        return Failure(WidthMismatch);
      }
      samples := samples + [dp.columns[j]];
    }
    assert idx[|idx|..] == [];
    return Success(samples);
  }

  /** Pushing succeeds exactly when every index is a column and, if rows
      were there before, they have the width of dp's columns; the samples
      are then the old rows followed by the columns in index order. */
  lemma {:induction false} PushColumnsResult(samples: seq<seq<real>>, dp: ColMatrix, idx: seq<nat>)
    requires dp.Valid()
    ensures PushColumns(samples, dp, idx).Success? <==>
      InRange(idx, |dp.columns|) && (|samples| == 0 || |idx| == 0 || |samples[0]| == dp.rows)
    ensures PushColumns(samples, dp, idx).Success? ==>
      InRange(idx, |dp.columns|) && PushColumns(samples, dp, idx).value == samples + SampleRows(dp, idx)
    decreases |idx|
  {
    if |idx| > 0 && idx[0] < |dp.columns| {
      var next := samples + [dp.columns[idx[0]]];
      PushColumnsResult(next, dp, idx[1..]);
      if PushColumns(samples, dp, idx).Success? {
        assert InRange(idx[1..], |dp.columns|);
        assert SampleRows(dp, idx) == [dp.columns[idx[0]]] + SampleRows(dp, idx[1..]);
      }
      if InRange(idx, |dp.columns|) {
        assert InRange(idx[1..], |dp.columns|) by {
          forall k | 0 <= k < |idx[1..]| ensures idx[1..][k] < |dp.columns| {
            assert idx[1..][k] == idx[k + 1];
          }
        }
      }
    }
  }

  /** With all indices inside their matrices and equally tall matrices, the
      sample matrix is image 1's sampled columns in list order, then image
      2's, one row per index; any successful sampling is of that form. */
  lemma SampleMatrixOrder(dp1: ColMatrix, dp2: ColMatrix, idx1: seq<nat>, idx2: seq<nat>)
    requires dp1.Valid() && dp2.Valid()
    ensures InRange(idx1, |dp1.columns|) && InRange(idx2, |dp2.columns|) && dp1.rows == dp2.rows ==>
      SampleMatrix(dp1, dp2, idx1, idx2).Success?
    ensures SampleMatrix(dp1, dp2, idx1, idx2).Success? ==>
      && InRange(idx1, |dp1.columns|) && InRange(idx2, |dp2.columns|)
      && SampleMatrix(dp1, dp2, idx1, idx2).value == SampleRows(dp1, idx1) + SampleRows(dp2, idx2)
      && |SampleMatrix(dp1, dp2, idx1, idx2).value| == |idx1| + |idx2|
  {
    PushColumnsResult([], dp1, idx1);
    var first := PushColumns([], dp1, idx1);
    if first.Success? {
      assert first.value == SampleRows(dp1, idx1);
      if |idx1| > 0 {
        assert first.value[0] == dp1.columns[idx1[0]];
      }
      PushColumnsResult(first.value, dp2, idx2);
    }
  }

  // ---------------------------------------------------------------------
  // Projection
  // ---------------------------------------------------------------------

  /** Every eigenvector has n entries. */
  ghost predicate VectorsOfLength(eig: seq<seq<real>>, n: nat)
  {
    forall k :: 0 <= k < |eig| ==> |eig[k]| == n
  }

  /** One column of `basis.t() * dp`: its inner product with every
      eigenvector, without subtracting any mean. */
  function ProjectColumn(eig: seq<seq<real>>, x: seq<real>): seq<real>
    requires VectorsOfLength(eig, |x|)
  {
    seq(|eig|, k requires 0 <= k < |eig| => Dot(eig[k], x))
  }

  /** `basis.t() * dp`, which OpenCV refuses unless the eigenvectors have
      as many entries as dp has rows. */
  function Project(eig: seq<seq<real>>, dp: ColMatrix): Result<ColMatrix, ReduceError>
    requires dp.Valid()
  {
    if exists k :: 0 <= k < |eig| && |eig[k]| != dp.rows then Failure(WidthMismatch)
    else Success(ColMatrix(|eig|, seq(|dp.columns|, j requires 0 <= j < |dp.columns| => ProjectColumn(eig, dp.columns[j]))))
  }

  function Add(u: seq<real>, v: seq<real>): seq<real>
    requires |u| == |v|
  {
    seq(|u|, i requires 0 <= i < |u| => u[i] + v[i])
  }

  lemma {:induction false} DotAdd(e: seq<real>, x: seq<real>, y: seq<real>)
    requires |e| == |x| == |y|
    ensures Dot(e, Add(x, y)) == Dot(e, x) + Dot(e, y)
  {
    if |e| > 0 {
      assert Add(x, y)[1..] == Add(x[1..], y[1..]);
      DotAdd(e[1..], x[1..], y[1..]);
    }
  }

  lemma {:induction false} DotZeros(e: seq<real>)
    ensures Dot(e, Zeros(|e|)) == 0.0
  {
    if |e| > 0 {
      assert Zeros(|e|)[1..] == Zeros(|e| - 1);
      DotZeros(e[1..]);
    }
  }

  /** The projection is linear, so no centring happens: a sum of columns
      projects to the sum of their projections, and a zero column to zero. */
  lemma ProjectionLinear(eig: seq<seq<real>>, x: seq<real>, y: seq<real>)
    requires |x| == |y| && VectorsOfLength(eig, |x|)
    ensures ProjectColumn(eig, Add(x, y)) == Add(ProjectColumn(eig, x), ProjectColumn(eig, y))
    ensures ProjectColumn(eig, Zeros(|x|)) == Zeros(|eig|)
  {
    forall k | 0 <= k < |eig| ensures Dot(eig[k], Add(x, y)) == Dot(eig[k], x) + Dot(eig[k], y) {
      DotAdd(eig[k], x, y);
    }
    forall k | 0 <= k < |eig| ensures Dot(eig[k], Zeros(|x|)) == 0.0 {
      DotZeros(eig[k]);
    }
  }

  // ---------------------------------------------------------------------
  // dimReduce
  // ---------------------------------------------------------------------

  /** What dimReduce returns for the given shuffles and PCA. */
  function ReduceSpec(dp1: ColMatrix, dp2: ColMatrix, opts: Options, sigma1: seq<nat>, sigma2: seq<nat>,
                      pca: (seq<seq<real>>, int) -> seq<seq<real>>): Result<Reduced, ReduceError>
    requires dp1.Valid() && dp2.Valid()
    requires IsPermutation(sigma1, |dp1.columns|) && IsPermutation(sigma2, |dp2.columns|)
  {
    if opts.dimReduction <= 0 then Success(Reduced(dp1, dp2, ColMatrix(0, [])))
    else
      var idx := SampledIndices(|dp1.columns|, |dp2.columns|, opts.dimReductionCov, sigma1, sigma2);
      var samples := SampleMatrix(dp1, dp2, idx.0, idx.1);
      if samples.Failure? then Failure(samples.error)
      else
        var eig := pca(samples.value, opts.dimReduction);
        var r1 := Project(eig, dp1);
        var r2 := Project(eig, dp2);
        if r1.Failure? then Failure(r1.error)
        else if r2.Failure? then Failure(r2.error)
        else Success(Reduced(r1.value, r2.value, ColMatrix(dp1.rows, eig)))
  }

  /** The sampling half of `reduceDimensions`: shuffle both index lists,
      cut them to the budget, and push the chosen columns, first image first. */
  method SampleColumns(dp1: ColMatrix, dp2: ColMatrix, totalCols: int, sigma1: seq<nat>, sigma2: seq<nat>)
    returns (samples: Result<seq<seq<real>>, ReduceError>)
    requires IsPermutation(sigma1, |dp1.columns|) && IsPermutation(sigma2, |dp2.columns|)
    ensures var idx := SampledIndices(|dp1.columns|, |dp2.columns|, totalCols, sigma1, sigma2);
      samples == SampleMatrix(dp1, dp2, idx.0, idx.1)
  {
    var n1, n2 := |dp1.columns|, |dp2.columns|;
    var a1 := Iota(n1);
    var a2 := Iota(n2);
    var idx1 := Shuffled(a1[..], sigma1);
    var idx2 := Shuffled(a2[..], sigma2);
    if totalCols > 0 && n1 + n2 > totalCols {
      idx1 := Resize(idx1, totalCols / 2);
      idx2 := Resize(idx2, totalCols - totalCols / 2);
    }
    samples := PushAll([], dp1, idx1);
    if samples.Failure? {
      return;
    }
    samples := PushAll(samples.value, dp2, idx2);
  }

  /** dimReduce, with `randShuffle` applying sigma1 and sigma2 and `cv::PCA`
      returning the eigenvectors pca computes. */
  method ReduceDimensions(dp1: ColMatrix, dp2: ColMatrix, opts: Options, sigma1: seq<nat>, sigma2: seq<nat>,
                          pca: (seq<seq<real>>, int) -> seq<seq<real>>) returns (res: Result<Reduced, ReduceError>)
    requires dp1.Valid() && dp2.Valid()
    requires IsPermutation(sigma1, |dp1.columns|) && IsPermutation(sigma2, |dp2.columns|)
    ensures opts.dimReduction <= 0 ==> res == Success(Reduced(dp1, dp2, ColMatrix(0, [])))
    ensures res == ReduceSpec(dp1, dp2, opts, sigma1, sigma2, pca)
  {
    if opts.dimReduction <= 0 {
      return Success(Reduced(dp1, dp2, ColMatrix(0, [])));
    }
    var samples := SampleColumns(dp1, dp2, opts.dimReductionCov, sigma1, sigma2);
    if samples.Failure? {
      return Failure(samples.error);
    }
    var eig := pca(samples.value, opts.dimReduction);
    var r1 := Project(eig, dp1);
    var r2 := Project(eig, dp2);
    if r1.Failure? {
      return Failure(r1.error);
    }
    if r2.Failure? {
      return Failure(r2.error);
    }
    return Success(Reduced(r1.value, r2.value, ColMatrix(dp1.rows, eig)));
  }

  /** A successful reduction keeps every column count, gives both images
      the same number of rows, and projects equal columns of the two
      images to equal columns: one basis serves both. */
  lemma ReducedShapes(dp1: ColMatrix, dp2: ColMatrix, opts: Options, sigma1: seq<nat>, sigma2: seq<nat>,
                      pca: (seq<seq<real>>, int) -> seq<seq<real>>)
    requires dp1.Valid() && dp2.Valid()
    requires IsPermutation(sigma1, |dp1.columns|) && IsPermutation(sigma2, |dp2.columns|)
    requires ReduceSpec(dp1, dp2, opts, sigma1, sigma2, pca).Success?
    ensures var r := ReduceSpec(dp1, dp2, opts, sigma1, sigma2, pca).value;
      && r.reduced1.Cols() == dp1.Cols() && r.reduced2.Cols() == dp2.Cols()
      && r.reduced1.Valid() && r.reduced2.Valid()
      && (opts.dimReduction > 0 ==> r.reduced1.rows == r.reduced2.rows)
    ensures opts.dimReduction > 0 ==>
      var r := ReduceSpec(dp1, dp2, opts, sigma1, sigma2, pca).value;
      forall i, j :: 0 <= i < dp1.Cols() && 0 <= j < dp2.Cols() && dp1.columns[i] == dp2.columns[j] ==>
        r.reduced1.columns[i] == r.reduced2.columns[j]
  {
  }
}
