/** Scale-less subspace encoding (`computeSLSDescriptors`): every grid point
    owns a block of numSigma descriptor columns; the block is mean-centred,
    its leading left singular vectors span a subspace, and the subspace's
    projection matrix A = H * H^T is flattened, upper triangle only, into one
    vector stored at the point's cell of an s2 x s1 volume. */
module SlsSubspace {
  import opened Common

  // ---------------------------------------------------------------------
  // The upper-triangle index list `inds`
  // ---------------------------------------------------------------------

  /** Flat indices i * D + j of row i of a D x D matrix, from column j on. */
  function TriRow(D: nat, i: nat, j: nat): seq<nat>
    decreases D - j
  {
    if j >= D then [] else [i * D + j] + TriRow(D, i, j + 1)
  }

  /** The upper triangle of rows i, i + 1, ..., each row from its diagonal. */
  function TriFrom(D: nat, i: nat): seq<nat>
    decreases D - i
  {
    if i >= D then [] else TriRow(D, i, i) + TriFrom(D, i + 1)
  }

  /** `inds`: i * D + j for every i <= j, rows outer, columns inner. */
  function UpperTriangle(D: nat): seq<nat>
  {
    TriFrom(D, 0)
  }

  /** The length of the flattened vector, SL = D (D + 1) / 2. */
  function TriangleSize(D: nat): nat
  {
    D * (D + 1) / 2
  }

  predicate StrictlyIncreasing(s: seq<nat>)
  {
    forall a, b :: 0 <= a < b < |s| ==> s[a] < s[b]
  }

  /** The nested loop that fills `inds`. */
  method BuildInds(D: nat) returns (inds: seq<nat>)
    ensures inds == UpperTriangle(D)
  {
    inds := [];
    var i := 0;
    while i < D
      invariant 0 <= i <= D
      invariant inds + TriFrom(D, i) == UpperTriangle(D)
    {
      TriFromStep(inds, D, i);
      inds := AppendRow(inds, D, i);
      i := i + 1;
    }
    assert inds + TriFrom(D, i) == inds;
  }

  /** Taking row i off the front of the rows still to come. */
  lemma TriFromStep(prefix: seq<nat>, D: nat, i: nat)
    requires i < D
    ensures prefix + TriFrom(D, i) == (prefix + TriRow(D, i, i)) + TriFrom(D, i + 1)
  {
    assert TriFrom(D, i) == TriRow(D, i, i) + TriFrom(D, i + 1);
  }

  /** The inner loop of `BuildInds`: row i from its diagonal on. */
  method AppendRow(prefix: seq<nat>, D: nat, i: nat) returns (inds: seq<nat>)
    ensures inds == prefix + TriRow(D, i, i)
  {
    inds := prefix;
    var j := i;
    while j < D
      invariant i <= j
      invariant prefix + TriRow(D, i, i) == inds + TriRow(D, i, j)
      decreases D - j
    {
      var e := i * D + j;
      assert TriRow(D, i, j) == [e] + TriRow(D, i, j + 1);
      assert inds + TriRow(D, i, j) == (inds + [e]) + TriRow(D, i, j + 1);
      inds := inds + [e];
      j := j + 1;
    }
  }

  lemma {:induction false} TriRowAt(D: nat, i: nat, j: nat)
    requires j <= D
    ensures |TriRow(D, i, j)| == D - j
    ensures forall k :: 0 <= k < D - j ==> TriRow(D, i, j)[k] == i * D + j + k
    decreases D - j
  {
    if j < D {
      TriRowAt(D, i, j + 1);
    }
  }

  /** Twice the size of the triangle from row i on is m (m + 1), m = D - i. */
  lemma {:induction false} TriFromLength(D: nat, i: nat)
    requires i <= D
    ensures 2 * |TriFrom(D, i)| == (D - i) * (D - i + 1)
    decreases D - i
  {
    if i < D {
      TriRowAt(D, i, i);
      TriFromLength(D, i + 1);
      assert |TriFrom(D, i)| == (D - i) + |TriFrom(D, i + 1)|;
      TriangleStep(D - i);
    }
  }

  lemma TriangleStep(m: nat)
    requires m >= 1
    ensures m * (m + 1) == 2 * m + (m - 1) * m
  {
  }

  /** `inds` has exactly SL = D (D + 1) / 2 entries. */
  lemma UpperTriangleLength(D: nat)
    ensures |UpperTriangle(D)| == TriangleSize(D)
  {
    TriFromLength(D, 0);
    DivUnique(D * (D + 1), 2, |UpperTriangle(D)|, 0);
  }

  /** Flat index i * D + j of a D x D matrix is row i, column j. */
  lemma FlatIndex(D: nat, i: nat, j: nat)
    requires j < D
    ensures (i * D + j) / D == i && (i * D + j) % D == j
  {
    DivUnique(i * D + j, D, i, j);
  }

  /** Row i from column j on holds exactly the flat indices of row i whose
      column is at least j. */
  lemma {:induction false} TriRowMember(D: nat, i: nat, j: nat, e: nat)
    requires D >= 1
    ensures e in TriRow(D, i, j) <==> e / D == i && j <= e % D
    decreases D - j
  {
    if j < D {
      TriRowMember(D, i, j + 1, e);
      FlatIndex(D, i, j);
      DivBounds(e, D);
    }
  }

  /** The triangle from row i on holds exactly the flat indices whose row is
      at least i and at most their column (which keeps them inside D x D). */
  lemma {:induction false} TriFromMember(D: nat, i: nat, e: nat)
    requires D >= 1
    ensures e in TriFrom(D, i) <==> i <= e / D <= e % D
    decreases D - i
  {
    if i < D {
      TriFromMember(D, i + 1, e);
      TriRowMember(D, i, i, e);
    }
  }

  /** Every entry of the triangle from row i on is at least i * D. */
  lemma {:induction false} TriFromAbove(D: nat, i: nat)
    ensures forall k :: 0 <= k < |TriFrom(D, i)| ==> i * D <= TriFrom(D, i)[k]
    decreases D - i
  {
    if i < D {
      TriRowAt(D, i, i);
      TriFromAbove(D, i + 1);
      MulPred(i + 1, D);
    }
  }

  /** `inds` is strictly increasing, so it lists every upper-triangle
      position exactly once. */
  lemma {:induction false} TriFromIncreasing(D: nat, i: nat)
    ensures StrictlyIncreasing(TriFrom(D, i))
    decreases D - i
  {
    if i < D {
      var row, rest := TriRow(D, i, i), TriFrom(D, i + 1);
      TriRowAt(D, i, i);
      TriFromIncreasing(D, i + 1);
      TriFromAbove(D, i + 1);
      MulPred(i + 1, D);
      var all := row + rest;
      forall a, b | 0 <= a < b < |all| ensures all[a] < all[b] {
        if b < |row| {
        } else if a < |row| {
          assert all[a] == i * D + i + a < (i + 1) * D;
          assert all[b] == rest[b - |row|];
        } else {
          assert all[a] == rest[a - |row|] && all[b] == rest[b - |row|];
        }
      }
    }
  }

  /** The upper-triangle list: SL entries, strictly increasing, and an
      index is listed exactly when it is a flat index (i, j) with i <= j. */
  lemma UpperTriangleProperties(D: nat)
    requires D >= 1
    ensures |UpperTriangle(D)| == TriangleSize(D)
    ensures StrictlyIncreasing(UpperTriangle(D))
    ensures forall e: nat :: e in UpperTriangle(D) <==> e < D * D && e / D <= e % D
  {
    UpperTriangleLength(D);
    TriFromIncreasing(D, 0);
    forall e: nat ensures e in UpperTriangle(D) <==> e < D * D && e / D <= e % D {
      TriFromMember(D, 0, e);
      if e / D <= e % D {
        DivBounds(e, D);
        MulMonotone(e / D, D - 1, D);
        MulPred(D, D);
      } else if e < D * D {
        DivBelow(e, D, D);
      }
    }
  }

  // ---------------------------------------------------------------------
  // Matrices and the flattened projection
  // ---------------------------------------------------------------------

  /** A D x D matrix, given by its rows. */
  ghost predicate IsSquare(M: seq<seq<real>>, D: nat)
  {
    |M| == D && forall i :: 0 <= i < D ==> |M[i]| == D
  }

  ghost predicate IsSymmetric(M: seq<seq<real>>, D: nat)
  {
    IsSquare(M, D) && forall i, j :: 0 <= i < D && 0 <= j < D ==> M[i][j] == M[j][i]
  }

  /** Vectors (matrix columns) that all have D entries. */
  ghost predicate ColumnsOfLength(H: seq<seq<real>>, D: nat)
  {
    forall k :: 0 <= k < |H| ==> |H[k]| == D
  }

  /** Entry (i, j) of H * H^T for H given by its columns: the sum over the
      columns of their i-th entry times their j-th entry. */
  function GramEntry(H: seq<seq<real>>, i: nat, j: nat): real
    requires forall k :: 0 <= k < |H| ==> i < |H[k]| && j < |H[k]|
  {
    if |H| == 0 then 0.0 else H[0][i] * H[0][j] + GramEntry(H[1..], i, j)
  }

  /** The projection matrix A = H * H^T of the subspace H spans. */
  function Gram(H: seq<seq<real>>, D: nat): seq<seq<real>>
    requires ColumnsOfLength(H, D)
  {
    seq(D, i requires 0 <= i < D => seq(D, j requires 0 <= j < D => GramEntry(H, i, j)))
  }

  lemma {:induction false} GramEntrySymmetric(H: seq<seq<real>>, i: nat, j: nat)
    requires forall k :: 0 <= k < |H| ==> i < |H[k]| && j < |H[k]|
    ensures GramEntry(H, i, j) == GramEntry(H, j, i)
  {
    if |H| > 0 {
      GramEntrySymmetric(H[1..], i, j);
    }
  }

  /** A = H * H^T is a symmetric D x D matrix. */
  lemma GramSymmetric(H: seq<seq<real>>, D: nat)
    requires ColumnsOfLength(H, D)
    ensures IsSymmetric(Gram(H, D), D)
  {
    forall i, j | 0 <= i < D && 0 <= j < D
      ensures Gram(H, D)[i][j] == Gram(H, D)[j][i]
    {
      GramEntrySymmetric(H, i, j);
    }
  }

  /** The matrix with its diagonal multiplied by s and nothing else changed. */
  function ScaledDiagonal(M: seq<seq<real>>, s: real): seq<seq<real>>
  {
    seq(|M|, i requires 0 <= i < |M| =>
      seq(|M[i]|, j requires 0 <= j < |M[i]| => if i == j then M[i][j] * s else M[i][j]))
  }

  /** Every index addresses an entry of a D x D matrix. */
  ghost predicate FlatIndices(idx: seq<nat>, D: nat)
  {
    forall k :: 0 <= k < |idx| ==> idx[k] < D * D
  }

  /** Entry e of the D x D matrix flattened row by row (`A.reshape(1, D * D)`). */
  function Entry(M: seq<seq<real>>, D: nat, e: nat): real
    requires D >= 1 && IsSquare(M, D) && e < D * D
  {
    DivBelow(e, D, D);
    M[e / D][e % D]
  }

  /** The entries of M at the flat indices idx, as the gather loop reads them. */
  function Gather(M: seq<seq<real>>, idx: seq<nat>, D: nat): (h: seq<real>)
    requires D >= 1 && IsSquare(M, D) && FlatIndices(idx, D)
  {
    seq(|idx|, k requires 0 <= k < |idx| => Entry(M, D, idx[k]))
  }

  /** The diagonal factor `diagScale`, 1 / sqrt(2). */
  function DiagScale(sqrt: real -> real): real
    requires IsSqrt(sqrt)
  {
    assert Sq(sqrt(2.0)) == 2.0;
    1.0 / sqrt(2.0)
  }

  /** The flattened encoding of a D x D matrix before normalisation: the
      diagonal scaled by s, then the upper triangle read row by row. */
  function Flatten(A: seq<seq<real>>, D: nat, s: real): seq<real>
    requires D >= 1 && IsSquare(A, D)
  {
    UpperTriangleInRange(D);
    Gather(ScaledDiagonal(A, s), UpperTriangle(D), D)
  }

  /** Every entry of the triangle from row i on addresses an entry of the
      D x D matrix. */
  lemma TriFromInRange(D: nat, i: nat)
    requires D >= 1
    ensures FlatIndices(TriFrom(D, i), D)
  {
    forall k | 0 <= k < |TriFrom(D, i)| ensures TriFrom(D, i)[k] < D * D {
      var e := TriFrom(D, i)[k];
      TriFromMember(D, i, e);
      DivBounds(e, D);
      MulMonotone(e / D, D - 1, D);
      MulPred(D, D);
    }
  }

  lemma UpperTriangleInRange(D: nat)
    requires D >= 1
    ensures FlatIndices(UpperTriangle(D), D)
  {
    TriFromInRange(D, 0);
  }

  // ---------------------------------------------------------------------
  // The inner product of two encodings is half the trace of AB
  // ---------------------------------------------------------------------

  /** Sum of A[i][j] * B[i][j] over row i from column j on. */
  function RowDot(A: seq<seq<real>>, B: seq<seq<real>>, D: nat, i: nat, j: nat): real
    requires IsSquare(A, D) && IsSquare(B, D) && i < D
    decreases D - j
  {
    if j >= D then 0.0 else A[i][j] * B[i][j] + RowDot(A, B, D, i, j + 1)
  }

  /** Sum of A[i][j] * B[i][j] over column j from row i on. */
  function ColDot(A: seq<seq<real>>, B: seq<seq<real>>, D: nat, j: nat, i: nat): real
    requires IsSquare(A, D) && IsSquare(B, D) && j < D
    decreases D - i
  {
    if i >= D then 0.0 else A[i][j] * B[i][j] + ColDot(A, B, D, j, i + 1)
  }

  /** Sum of A[i][j] * B[i][j] over the rows from lo on and the columns
      from a on. */
  function FrobFrom(A: seq<seq<real>>, B: seq<seq<real>>, D: nat, lo: nat, a: nat): real
    requires IsSquare(A, D) && IsSquare(B, D)
    decreases D - lo
  {
    if lo >= D then 0.0 else RowDot(A, B, D, lo, a) + FrobFrom(A, B, D, lo + 1, a)
  }

  /** The Frobenius inner product, sum of A[i][j] * B[i][j]; for symmetric
      B it is trace(A B). */
  function Frobenius(A: seq<seq<real>>, B: seq<seq<real>>, D: nat): real
    requires IsSquare(A, D) && IsSquare(B, D)
  {
    FrobFrom(A, B, D, 0, 0)
  }

  lemma {:induction false} DotAppend(a: seq<real>, b: seq<real>, c: seq<real>, d: seq<real>)
    requires |a| == |c| && |b| == |d|
    ensures Dot(a + b, c + d) == Dot(a, c) + Dot(b, d)
  {
    if |a| == 0 {
      assert a + b == b && c + d == d;
    } else {
      assert (a + b)[1..] == a[1..] + b && (c + d)[1..] == c[1..] + d;
      DotAppend(a[1..], b, c[1..], d);
    }
  }

  /** Splitting off column a: the block from column a on is column a plus
      the block from column a + 1 on. */
  lemma {:induction false} FrobSplitColumn(A: seq<seq<real>>, B: seq<seq<real>>, D: nat, lo: nat, a: nat)
    requires IsSquare(A, D) && IsSquare(B, D) && a < D
    ensures FrobFrom(A, B, D, lo, a) == ColDot(A, B, D, a, lo) + FrobFrom(A, B, D, lo, a + 1)
    decreases D - lo
  {
    if lo < D {
      FrobSplitColumn(A, B, D, lo + 1, a);
    }
  }

  /** For symmetric matrices, column a below row i mirrors row a. */
  lemma {:induction false} ColumnMirrorsRow(A: seq<seq<real>>, B: seq<seq<real>>, D: nat, a: nat, i: nat)
    requires IsSymmetric(A, D) && IsSymmetric(B, D) && a < D
    ensures ColDot(A, B, D, a, i) == RowDot(A, B, D, a, i)
    decreases D - i
  {
    if i < D {
      ColumnMirrorsRow(A, B, D, a, i + 1);
    }
  }

  /** A' is A with its diagonal multiplied by s. */
  ghost predicate DiagonallyScaled(A': seq<seq<real>>, A: seq<seq<real>>, D: nat, s: real)
  {
    && IsSquare(A', D) && IsSquare(A, D)
    && (forall i, j :: 0 <= i < D && 0 <= j < D && i != j ==> A'[i][j] == A[i][j])
    && (forall i :: 0 <= i < D ==> A'[i][i] == A[i][i] * s)
  }

  lemma ScaledDiagonalScales(M: seq<seq<real>>, D: nat, s: real)
    requires IsSquare(M, D)
    ensures DiagonallyScaled(ScaledDiagonal(M, s), M, D, s)
  {
  }

  /** Off the diagonal, scaling the diagonal changes nothing. */
  lemma {:induction false} RowDotOffDiagonal(A': seq<seq<real>>, B': seq<seq<real>>, A: seq<seq<real>>, B: seq<seq<real>>,
                                             D: nat, s: real, i: nat, j: nat)
    requires DiagonallyScaled(A', A, D, s) && DiagonallyScaled(B', B, D, s) && i < j && i < D
    ensures RowDot(A', B', D, i, j) == RowDot(A, B, D, i, j)
    decreases D - j
  {
    if j < D {
      RowDotOffDiagonal(A', B', A, B, D, s, i, j + 1);
    }
  }

  /** Row i of the scaled matrices from the diagonal on, with s^2 = 1/2:
      half the diagonal product, then the unscaled rest of the row. */
  lemma DiagonalRow(A': seq<seq<real>>, B': seq<seq<real>>, A: seq<seq<real>>, B: seq<seq<real>>,
                    D: nat, s: real, i: nat)
    requires DiagonallyScaled(A', A, D, s) && DiagonallyScaled(B', B, D, s) && i < D && s * s == 0.5
    ensures 2.0 * RowDot(A', B', D, i, i) == A[i][i] * B[i][i] + 2.0 * RowDot(A, B, D, i, i + 1)
  {
    var a, b, a', b' := A[i][i], B[i][i], A'[i][i], B'[i][i];
    var r', r := RowDot(A', B', D, i, i + 1), RowDot(A, B, D, i, i + 1);
    RowDotOffDiagonal(A', B', A, B, D, s, i, i + 1);
    assert RowDot(A', B', D, i, i) == a' * b' + r';
    assert a' == a * s && b' == b * s && r' == r;
    DiagonalTerm(a, b, s, a', b', r', r);
  }

  /** The diagonal step on plain numbers: a' = a s and b' = b s with
      s^2 = 1/2 give 2 (a' b' + r) = a b + 2 r. */
  lemma DiagonalTerm(a: real, b: real, s: real, a': real, b': real, r': real, r: real)
    requires a' == a * s && b' == b * s && s * s == 0.5 && r' == r
    ensures 2.0 * (a' * b' + r') == a * b + 2.0 * r
  {
    calc {
      a' * b';
      (a * s) * (b * s);
      { ScaledProduct(a, b, s); }
      (s * s) * (a * b);
    }
    HalveDiagonal(s, a * b, r);
  }

  /** The Frobenius block from (i, i) on: the diagonal product, twice the
      rest of row i (column i mirrors it), and the block from (i+1, i+1). */
  lemma FrobPeel(A: seq<seq<real>>, B: seq<seq<real>>, D: nat, i: nat)
    requires IsSymmetric(A, D) && IsSymmetric(B, D) && i < D
    ensures FrobFrom(A, B, D, i, i) ==
      A[i][i] * B[i][i] + 2.0 * RowDot(A, B, D, i, i + 1) + FrobFrom(A, B, D, i + 1, i + 1)
  {
    FrobSplitColumn(A, B, D, i + 1, i);
    ColumnMirrorsRow(A, B, D, i, i + 1);
  }

  /** A single flat index gathers a single entry. */
  lemma GatherOne(M: seq<seq<real>>, D: nat, i: nat, j: nat)
    requires D >= 1 && IsSquare(M, D) && i < D && j < D
    ensures FlatIndices([i * D + j], D)
    ensures Gather(M, [i * D + j], D) == [M[i][j]]
  {
    FlatIndex(D, i, j);
    MulMonotone(i, D - 1, D);
    MulPred(D, D);
  }

  lemma DotCons(x: real, u: seq<real>, y: real, v: seq<real>)
    requires |u| == |v|
    ensures Dot([x] + u, [y] + v) == x * y + Dot(u, v)
  {
    assert ([x] + u)[1..] == u && ([y] + v)[1..] == v;
  }

  /** Gathering one row of the triangle and taking the inner product sums
      that row. */
  lemma {:induction false} GatherRowDot(A: seq<seq<real>>, B: seq<seq<real>>, D: nat, i: nat, j: nat)
    requires D >= 1 && IsSquare(A, D) && IsSquare(B, D) && i < D && j <= D
    requires FlatIndices(TriRow(D, i, j), D)
    ensures Dot(Gather(A, TriRow(D, i, j), D), Gather(B, TriRow(D, i, j), D)) == RowDot(A, B, D, i, j)
    decreases D - j
  {
    if j < D {
      GatherRowDotStep(A, B, D, i, j);
      GatherRowDot(A, B, D, i, j + 1);
    }
  }

  /** The inner product of the gathered row splits off entry (i, j). */
  lemma GatherRowDotStep(A: seq<seq<real>>, B: seq<seq<real>>, D: nat, i: nat, j: nat)
    requires D >= 1 && IsSquare(A, D) && IsSquare(B, D) && i < D && j < D
    requires FlatIndices(TriRow(D, i, j), D)
    ensures FlatIndices(TriRow(D, i, j + 1), D)
    ensures Dot(Gather(A, TriRow(D, i, j), D), Gather(B, TriRow(D, i, j), D)) ==
      A[i][j] * B[i][j] + Dot(Gather(A, TriRow(D, i, j + 1), D), Gather(B, TriRow(D, i, j + 1), D))
  {
    GatherRowStep(A, D, i, j);
    GatherRowStep(B, D, i, j);
    var ga, gb := Gather(A, TriRow(D, i, j + 1), D), Gather(B, TriRow(D, i, j + 1), D);
    DotCons(A[i][j], ga, B[i][j], gb);
  }

  /** Gathering row i from column j on: entry (i, j), then the rest of the row. */
  lemma GatherRowStep(M: seq<seq<real>>, D: nat, i: nat, j: nat)
    requires D >= 1 && IsSquare(M, D) && i < D && j < D
    requires FlatIndices(TriRow(D, i, j), D)
    ensures FlatIndices(TriRow(D, i, j + 1), D)
    ensures Gather(M, TriRow(D, i, j), D) == [M[i][j]] + Gather(M, TriRow(D, i, j + 1), D)
  {
    var one, rest := [i * D + j], TriRow(D, i, j + 1);
    assert TriRow(D, i, j) == one + rest;
    GatherAppend(M, one, rest, D);
    GatherOne(M, D, i, j);
  }

  lemma GatherAppend(M: seq<seq<real>>, a: seq<nat>, b: seq<nat>, D: nat)
    requires D >= 1 && IsSquare(M, D) && FlatIndices(a + b, D)
    ensures FlatIndices(a, D) && FlatIndices(b, D)
    ensures Gather(M, a + b, D) == Gather(M, a, D) + Gather(M, b, D)
  {
    forall k | 0 <= k < |a| ensures a[k] < D * D {
      assert a[k] == (a + b)[k];
    }
    forall k | 0 <= k < |b| ensures b[k] < D * D {
      assert b[k] == (a + b)[|a| + k];
    }
  }

  /** The triangle from row i on splits into row i and the rows below. */
  lemma TriFromDotSplit(A: seq<seq<real>>, B: seq<seq<real>>, D: nat, i: nat)
    requires D >= 1 && IsSquare(A, D) && IsSquare(B, D) && i < D
    ensures FlatIndices(TriFrom(D, i), D) && FlatIndices(TriFrom(D, i + 1), D)
    ensures Dot(Gather(A, TriFrom(D, i), D), Gather(B, TriFrom(D, i), D)) ==
      RowDot(A, B, D, i, i) + Dot(Gather(A, TriFrom(D, i + 1), D), Gather(B, TriFrom(D, i + 1), D))
  {
    var row, rest := TriRow(D, i, i), TriFrom(D, i + 1);
    assert TriFrom(D, i) == row + rest;
    TriFromInRange(D, i);
    GatherAppend(A, row, rest, D);
    GatherAppend(B, row, rest, D);
    DotAppend(Gather(A, row, D), Gather(A, rest, D), Gather(B, row, D), Gather(B, rest, D));
    GatherRowDot(A, B, D, i, i);
  }

  /** With s^2 = 1/2, twice the scaled diagonal product and the rest of the
      row is the diagonal product plus twice the rest. */
  lemma HalveDiagonal(s: real, p: real, r: real)
    requires s * s == 0.5
    ensures 2.0 * ((s * s) * p + r) == p + 2.0 * r
  {
  }

  /** Diagonal entries scaled by s contribute s^2 times their product. */
  lemma ScaledProduct(a: real, b: real, s: real)
    ensures (a * s) * (b * s) == (s * s) * (a * b)
  {
  }

  /** Twice the inner product of the encodings of rows i, i + 1, ... is the
      Frobenius product of the lower right block from (i, i) on, when the
      diagonal factor squares to 1/2. */
  lemma {:induction false} HalfFrobeniusFrom(A': seq<seq<real>>, B': seq<seq<real>>, A: seq<seq<real>>, B: seq<seq<real>>,
                                             D: nat, s: real, i: nat)
    requires D >= 1 && IsSymmetric(A, D) && IsSymmetric(B, D) && s * s == 0.5
    requires DiagonallyScaled(A', A, D, s) && DiagonallyScaled(B', B, D, s)
    ensures FlatIndices(TriFrom(D, i), D)
    ensures 2.0 * Dot(Gather(A', TriFrom(D, i), D), Gather(B', TriFrom(D, i), D)) == FrobFrom(A, B, D, i, i)
    decreases D - i
  {
    TriFromInRange(D, i);
    if i < D {
      TriFromDotSplit(A', B', D, i);
      HalfFrobeniusFrom(A', B', A, B, D, s, i + 1);
      DiagonalRow(A', B', A, B, D, s, i);
      FrobPeel(A, B, D, i);
    } else {
      assert TriFrom(D, i) == [];
    }
  }

  /** 1 / sqrt(2) squares to 1/2. */
  lemma DiagScaleSquare(sqrt: real -> real)
    requires IsSqrt(sqrt)
    ensures DiagScale(sqrt) * DiagScale(sqrt) == 0.5
  {
    var r := sqrt(2.0);
    assert r * r == 2.0;
    assert (1.0 / r) * (1.0 / r) == 1.0 / (r * r);
  }

  /** The inner product of the encodings of two symmetric matrices is half
      their Frobenius product, that is half of trace(A B): the 1/sqrt(2)
      diagonal factor counts each diagonal product 1/2 and each
      off-diagonal pair, stored once, 1 = 2 * 1/2. */
  lemma EncodingInnerProduct(A: seq<seq<real>>, B: seq<seq<real>>, D: nat, sqrt: real -> real)
    requires D >= 1 && IsSymmetric(A, D) && IsSymmetric(B, D) && IsSqrt(sqrt)
    ensures |Flatten(A, D, DiagScale(sqrt))| == |Flatten(B, D, DiagScale(sqrt))|
    ensures Dot(Flatten(A, D, DiagScale(sqrt)), Flatten(B, D, DiagScale(sqrt))) == 0.5 * Frobenius(A, B, D)
  {
    var s := DiagScale(sqrt);
    DiagScaleSquare(sqrt);
    ScaledDiagonalScales(A, D, s);
    ScaledDiagonalScales(B, D, s);
    UpperTriangleInRange(D);
    assert UpperTriangle(D) == TriFrom(D, 0);
    HalfFrobeniusFrom(ScaledDiagonal(A, s), ScaledDiagonal(B, s), A, B, D, s, 0);
  }

  lemma {:induction false} SumSqIsDot(u: seq<real>)
    ensures SumSq(u) == Dot(u, u)
  {
    if |u| > 0 {
      SumSqIsDot(u[1..]);
    }
  }

  /** The squared norm of an encoding is half the squared Frobenius norm of
      the symmetric matrix it encodes. */
  lemma EncodingNorm(A: seq<seq<real>>, D: nat, sqrt: real -> real)
    requires D >= 1 && IsSymmetric(A, D) && IsSqrt(sqrt)
    ensures SumSq(Flatten(A, D, DiagScale(sqrt))) == 0.5 * Frobenius(A, A, D)
  {
    EncodingInnerProduct(A, A, D, sqrt);
    SumSqIsDot(Flatten(A, D, DiagScale(sqrt)));
  }

  // ---------------------------------------------------------------------
  // Normalisation
  // ---------------------------------------------------------------------

  /** The norm below which the encoding is left as it is (`1e-8f`). */
  const NormThreshold: real := 0.00000001

  /** `h /= nrm`: every entry divided by n. */
  function DividedBy(h: seq<real>, n: real): seq<real>
    requires n != 0.0
  {
    seq(|h|, k requires 0 <= k < |h| => h[k] / n)
  }

  /** `if (nrm > 1e-8f) h /= nrm;` */
  function Normalised(h: seq<real>, nrm: real): seq<real>
  {
    if nrm > NormThreshold then DividedBy(h, nrm) else h
  }

  lemma DivSquare(x: real, n: real)
    requires n != 0.0
    ensures Sq(x / n) * Sq(n) == Sq(x)
  {
    var q := x / n;
    assert q * n == x;
    assert (q * q) * (n * n) == (q * n) * (q * n);
  }

  /** Dividing every entry by n divides the squared norm by n^2. */
  lemma {:induction false} SumSqDivided(h: seq<real>, n: real)
    requires n != 0.0
    ensures SumSq(DividedBy(h, n)) * Sq(n) == SumSq(h)
  {
    var t := DividedBy(h, n);
    if |h| > 0 {
      assert t[1..] == DividedBy(h[1..], n);
      SumSqDivided(h[1..], n);
      DivSquare(h[0], n);
      assert SumSq(t) * Sq(n) == Sq(t[0]) * Sq(n) + SumSq(t[1..]) * Sq(n);
    }
  }

  lemma CancelFactor(a: real, w: real, v: real)
    requires a * w == v && w == v && w > 0.0
    ensures a == 1.0
  {
  }

  lemma SquareAtMost(n: real, t: real)
    requires 0.0 <= n <= t
    ensures Sq(n) <= t * t
  {
    assert (t - n) * n >= 0.0;
    assert (t - n) * t >= 0.0;
  }

  /** After the guarded division the encoding has unit length, unless its
      norm was at most the threshold, in which case it is unchanged and its
      squared norm is at most the threshold squared. */
  lemma NormalisedUnit(h: seq<real>, sqrt: real -> real)
    requires IsSqrt(sqrt)
    ensures |Normalised(h, sqrt(SumSq(h)))| == |h|
    ensures sqrt(SumSq(h)) > NormThreshold ==> SumSq(Normalised(h, sqrt(SumSq(h)))) == 1.0
    ensures sqrt(SumSq(h)) <= NormThreshold ==>
      Normalised(h, sqrt(SumSq(h))) == h && SumSq(h) <= NormThreshold * NormThreshold
  {
    var v := SumSq(h);
    var n := sqrt(v);
    assert Sq(n) == v && n >= 0.0;
    if n > NormThreshold {
      SumSqDivided(h, n);
      SquareNonZero(n);
      CancelFactor(SumSq(DividedBy(h, n)), Sq(n), v);
    } else {
      SquareAtMost(n, NormThreshold);
    }
  }

  // ---------------------------------------------------------------------
  // One grid point
  // ---------------------------------------------------------------------

  /** What a grid point contributes: nothing when its block of columns is
      empty (`continue`), otherwise its encoding. */
  datatype Cell = Skipped | Encoded(h: seq<real>)

  /** `U.colRange(0, d)` asks for more left singular vectors than the SVD
      of the block returned, which OpenCV rejects with an exception. */
  datatype SlsError = RankExceedsBlock

  /** The SVD is a library routine: the model receives the left singular
      vectors (columns of U) it returns for a D x K block, which are the
      min(D, K) columns of the thin decomposition, each of length D. */
  ghost predicate ThinSvd(leftVectors: seq<seq<real>> -> seq<seq<real>>, D: nat)
  {
    forall X :: |leftVectors(X)| == Min(D, |X|) && ColumnsOfLength(leftVectors(X), D)
  }

  /** K = end - start: how many stacked columns point p owns, at most
      numSigma and cut off at the last column of dpMat. */
  function BlockWidth(p: nat, numSigma: nat, cols: nat): int
  {
    Min(p * numSigma + numSigma, cols) - p * numSigma
  }

  /** Columns start, ..., end - 1 of dpMat. */
  function Block(dp: ColMatrix, p: nat, numSigma: nat): seq<seq<real>>
    requires BlockWidth(p, numSigma, dp.Cols()) > 0
  {
    dp.columns[p * numSigma .. p * numSigma + BlockWidth(p, numSigma, dp.Cols())]
  }

  /** Row r of a matrix given by its columns. */
  function RowOf(X: seq<seq<real>>, r: nat): seq<real>
    requires forall c :: 0 <= c < |X| ==> r < |X[c]|
  {
    seq(|X|, c requires 0 <= c < |X| => X[c][r])
  }

  /** `cv::reduce(X, mean, 1, cv::REDUCE_AVG)`: the average of every row. */
  function RowMean(X: seq<seq<real>>, D: nat): (mean: seq<real>)
    requires |X| >= 1 && ColumnsOfLength(X, D)
  {
    seq(D, r requires 0 <= r < D => Sum(RowOf(X, r)) / (|X| as real))
  }

  function Subtract(u: seq<real>, v: seq<real>): seq<real>
    requires |u| == |v|
  {
    seq(|u|, r requires 0 <= r < |u| => u[r] - v[r])
  }

  /** Every column with the mean column subtracted. */
  function Centered(X: seq<seq<real>>, mean: seq<real>): seq<seq<real>>
    requires ColumnsOfLength(X, |mean|)
  {
    seq(|X|, c requires 0 <= c < |X| => Subtract(X[c], mean))
  }

  /** The subspace dimension d = min(max(1, subsDim), D). */
  function RankOf(subsDim: int, D: nat): int
  {
    Min(Max(1, subsDim), D)
  }

  /** The encoding of point p, or the error its SVD causes. */
  function PointEncoding(dp: ColMatrix, p: nat, numSigma: nat, subsDim: int,
                         leftVectors: seq<seq<real>> -> seq<seq<real>>, sqrt: real -> real): Result<Cell, SlsError>
    requires dp.Valid() && dp.rows >= 1 && ThinSvd(leftVectors, dp.rows) && IsSqrt(sqrt)
  {
    var D := dp.rows;
    if BlockWidth(p, numSigma, dp.Cols()) <= 0 then Success(Skipped)
    else
      var X := Block(dp, p, numSigma);
      var U := leftVectors(Centered(X, RowMean(X, D)));
      var d := RankOf(subsDim, D);
      if d > |U| then Failure(RankExceedsBlock)
      else
        GramSymmetric(U[..d], D);
        var h := Flatten(Gram(U[..d], D), D, DiagScale(sqrt));
        Success(Encoded(Normalised(h, sqrt(SumSq(h)))))
  }

  /** Point p's block holds columns but fewer than the subspace dimension. */
  predicate RankTooLarge(dp: ColMatrix, p: nat, numSigma: nat, subsDim: int)
  {
    0 < BlockWidth(p, numSigma, dp.Cols()) < RankOf(subsDim, dp.rows)
  }

  /** The SVD step fails exactly when the block is too narrow for the rank. */
  lemma PointFails(dp: ColMatrix, p: nat, numSigma: nat, subsDim: int,
                   leftVectors: seq<seq<real>> -> seq<seq<real>>, sqrt: real -> real)
    requires dp.Valid() && dp.rows >= 1 && ThinSvd(leftVectors, dp.rows) && IsSqrt(sqrt)
    ensures PointEncoding(dp, p, numSigma, subsDim, leftVectors, sqrt).Failure? <==> RankTooLarge(dp, p, numSigma, subsDim)
  {
    if BlockWidth(p, numSigma, dp.Cols()) > 0 {
      var X := Block(dp, p, numSigma);
      assert |leftVectors(Centered(X, RowMean(X, dp.rows)))| == Min(dp.rows, |X|);
    }
  }

  /** A point is skipped exactly when its block is empty; it fails exactly
      when its block is non-empty but narrower than the subspace dimension;
      otherwise it yields SL = D (D + 1) / 2 numbers of unit length, or of
      norm at most 1e-8 when the division was skipped. */
  lemma PointEncodingCases(dp: ColMatrix, p: nat, numSigma: nat, subsDim: int,
                           leftVectors: seq<seq<real>> -> seq<seq<real>>, sqrt: real -> real)
    requires dp.Valid() && dp.rows >= 1 && ThinSvd(leftVectors, dp.rows) && IsSqrt(sqrt)
    ensures 1 <= RankOf(subsDim, dp.rows) <= dp.rows
    ensures PointEncoding(dp, p, numSigma, subsDim, leftVectors, sqrt) == Success(Skipped) <==>
      numSigma == 0 || p * numSigma >= dp.Cols()
    ensures PointEncoding(dp, p, numSigma, subsDim, leftVectors, sqrt).Failure? <==>
      0 < BlockWidth(p, numSigma, dp.Cols()) < RankOf(subsDim, dp.rows)
    ensures PointEncoding(dp, p, numSigma, subsDim, leftVectors, sqrt).Success? &&
            PointEncoding(dp, p, numSigma, subsDim, leftVectors, sqrt).value.Encoded? ==>
      var h := PointEncoding(dp, p, numSigma, subsDim, leftVectors, sqrt).value.h;
      |h| == TriangleSize(dp.rows) && (SumSq(h) == 1.0 || SumSq(h) <= NormThreshold * NormThreshold)
  {
    var D := dp.rows;
    if BlockWidth(p, numSigma, dp.Cols()) > 0 {
      var X := Block(dp, p, numSigma);
      var U := leftVectors(Centered(X, RowMean(X, D)));
      var d := RankOf(subsDim, D);
      assert |U| == Min(D, |X|);
      if d <= |U| {
        GramSymmetric(U[..d], D);
        var h := Flatten(Gram(U[..d], D), D, DiagScale(sqrt));
        UpperTriangleLength(D);
        NormalisedUnit(h, sqrt);
      }
    }
  }

  /** Mean-centring subtracts each row's average, so every row of the
      centred block sums to zero. */
  lemma CenteredRowsSumZero(X: seq<seq<real>>, D: nat, r: nat)
    requires |X| >= 1 && ColumnsOfLength(X, D) && r < D
    ensures ColumnsOfLength(Centered(X, RowMean(X, D)), D)
    ensures Sum(RowOf(Centered(X, RowMean(X, D)), r)) == 0.0
  {
    var mean := RowMean(X, D);
    var row := RowOf(X, r);
    assert RowOf(Centered(X, mean), r) == Shifted(row, mean[r]);
    SumShifted(row, mean[r]);
  }

  /** Every entry minus m. */
  function Shifted(s: seq<real>, m: real): seq<real>
  {
    seq(|s|, k requires 0 <= k < |s| => s[k] - m)
  }

  lemma {:induction false} SumShifted(s: seq<real>, m: real)
    ensures Sum(Shifted(s, m)) == Sum(s) - (|s| as real) * m
  {
    if |s| > 0 {
      assert Shifted(s, m)[1..] == Shifted(s[1..], m);
      SumShifted(s[1..], m);
    }
  }

  // ---------------------------------------------------------------------
  // The loops of computeSLSDescriptors
  // ---------------------------------------------------------------------

  /** `for (c ...) X.col(c) -= mean;` */
  method CenterColumns(X: array<seq<real>>, mean: seq<real>)
    requires forall c :: 0 <= c < X.Length ==> |X[c]| == |mean|
    modifies X
    ensures ColumnsOfLength(old(X[..]), |mean|)
    ensures X[..] == Centered(old(X[..]), mean)
  {
    ghost var X0 := X[..];
    for c := 0 to X.Length
      invariant forall c' :: 0 <= c' < c ==> X[c'] == Subtract(X0[c'], mean)
      invariant forall c' :: c <= c' < X.Length ==> X[c'] == X0[c']
    {
      X[c] := Subtract(X[c], mean);
    }
  }

  /** The entries of a matrix held in a two-dimensional array, row by row. */
  function Contents(A: array2<real>): (M: seq<seq<real>>)
    reads A
    ensures |M| == A.Length0 && forall i :: 0 <= i < |M| ==> |M[i]| == A.Length1
  {
    seq(A.Length0, i requires 0 <= i < A.Length0 reads A =>
      seq(A.Length1, j requires 0 <= j < A.Length1 reads A => A[i, j]))
  }

  /** `A.at<float>(i, i) *= diagScale` for every i. */
  method ScaleDiagonal(A: array2<real>, s: real)
    requires A.Length0 == A.Length1
    modifies A
    ensures Contents(A) == ScaledDiagonal(old(Contents(A)), s)
  {
    ghost var M := Contents(A);
    var n := A.Length0;
    for i := 0 to n
      invariant forall r, c :: 0 <= r < n && 0 <= c < n ==>
        A[r, c] == if r == c && r < i then M[r][c] * s else M[r][c]
    {
      A[i, i] := A[i, i] * s;
    }
    forall r | 0 <= r < n ensures Contents(A)[r] == ScaledDiagonal(M, s)[r] {
      assert forall c :: 0 <= c < n ==> Contents(A)[r][c] == ScaledDiagonal(M, s)[r][c];
    }
  }

  /** `h.at<float>(0, k) = flat.at<float>(inds[k], 0)` for every k. */
  method GatherTriangle(A: array2<real>, ghost M: seq<seq<real>>, inds: seq<nat>) returns (h: array<real>)
    requires A.Length0 == A.Length1 >= 1 && M == Contents(A) && FlatIndices(inds, A.Length0)
    ensures fresh(h)
    ensures h[..] == Gather(M, inds, A.Length0)
  {
    var D := A.Length0;
    h := new real[|inds|];
    for k := 0 to |inds|
      invariant forall k' :: 0 <= k' < k ==> h[k'] == Entry(M, D, inds[k'])
    {
      DivBelow(inds[k], D, D);
      h[k] := A[inds[k] / D, inds[k] % D];
    }
  }

  /** `X = dpMat(all, Range(start, end)).clone()` followed by mean-centring. */
  method CenteredBlock(dp: ColMatrix, p: nat, numSigma: nat) returns (Xc: seq<seq<real>>)
    requires dp.Valid() && dp.rows >= 1 && BlockWidth(p, numSigma, dp.Cols()) > 0
    ensures Xc == Centered(Block(dp, p, numSigma), RowMean(Block(dp, p, numSigma), dp.rows))
  {
    var start := p * numSigma;
    var K := BlockWidth(p, numSigma, |dp.columns|);
    var X := new seq<real>[K](c requires 0 <= c < K => dp.columns[start + c]);
    assert X[..] == Block(dp, p, numSigma);
    var mean := RowMean(X[..], dp.rows);
    CenterColumns(X, mean);
    Xc := X[..];
  }

  /** `A = H * H.t()` as a fresh D x D array. */
  method GramArray(H: seq<seq<real>>, D: nat) returns (A: array2<real>)
    requires ColumnsOfLength(H, D)
    ensures fresh(A) && A.Length0 == D && A.Length1 == D
    ensures Contents(A) == Gram(H, D)
  {
    A := new real[D, D]((i: int, j: int) requires 0 <= i < D && 0 <= j < D => GramEntry(H, i, j));
    forall i | 0 <= i < D ensures Contents(A)[i] == Gram(H, D)[i] {
      assert forall j :: 0 <= j < D ==> Contents(A)[i][j] == Gram(H, D)[i][j];
    }
  }

  /** `A = H * H.t()`, the diagonal scaling, and the gather through `inds`. */
  method EncodeSubspace(H: seq<seq<real>>, D: nat, inds: seq<nat>, diagScale: real) returns (h: array<real>)
    requires D >= 1 && ColumnsOfLength(H, D) && inds == UpperTriangle(D)
    ensures fresh(h)
    ensures IsSquare(Gram(H, D), D)
    ensures h[..] == Flatten(Gram(H, D), D, diagScale)
  {
    GramSymmetric(H, D);
    var A := GramArray(H, D);
    ScaleDiagonal(A, diagScale);
    UpperTriangleInRange(D);
    h := GatherTriangle(A, Contents(A), inds);
  }

  /** `float nrm = cv::norm(h); if (nrm > 1e-8f) h /= nrm;` */
  method NormaliseInPlace(h: array<real>, sqrt: real -> real)
    modifies h
    ensures h[..] == Normalised(old(h[..]), sqrt(SumSq(old(h[..]))))
  {
    var nrm := sqrt(SumSq(h[..]));
    if nrm > NormThreshold {
      forall k | 0 <= k < h.Length {
        h[k] := h[k] / nrm;
      }
    }
  }

  /** The body of the loop over points, for point p. */
  method EncodePoint(dp: ColMatrix, p: nat, numSigma: nat, subsDim: int, inds: seq<nat>, diagScale: real,
                     leftVectors: seq<seq<real>> -> seq<seq<real>>, sqrt: real -> real)
    returns (cell: Result<Cell, SlsError>)
    requires dp.Valid() && dp.rows >= 1 && ThinSvd(leftVectors, dp.rows) && IsSqrt(sqrt)
    requires inds == UpperTriangle(dp.rows) && diagScale == DiagScale(sqrt)
    ensures cell == PointEncoding(dp, p, numSigma, subsDim, leftVectors, sqrt)
  {
    var D := dp.rows;
    var start := p * numSigma;
    var end := start + numSigma;
    if end > |dp.columns| {
      end := |dp.columns|;
    }
    var K := end - start;
    if K <= 0 {
      return Success(Skipped);
    }
    var Xc := CenteredBlock(dp, p, numSigma);
    var U := leftVectors(Xc);
    var d := Min(Max(1, subsDim), D);
    if d > |U| {
      return Failure(RankExceedsBlock);
    }
    var h := EncodeSubspace(U[..d], D, inds, diagScale);
    NormaliseInPlace(h, sqrt);
    return Success(Encoded(h[..]));
  }

  /** The flat position of cell (r, c) in an s2 x s1 volume, row by row. */
  function CellIndex(r: int, c: int, s1: nat): int
  {
    r * s1 + c
  }

  /** Point p goes to cell (p / s1, p % s1): a cell inside the volume, and
      the only cell whose flat position is p. */
  lemma CellOfPoint(p: nat, s1: nat, s2: nat)
    requires p < s1 * s2
    ensures s1 >= 1 && p / s1 < s2 && p % s1 < s1
    ensures forall r, c :: 0 <= c < s1 ==> (CellIndex(r, c, s1) == p <==> r == p / s1 && c == p % s1)
  {
    assert s1 * s2 == s2 * s1;
    DivBelow(p, s2, s1);
    forall r, c | 0 <= c < s1 && CellIndex(r, c, s1) == p ensures r == p / s1 && c == p % s1 {
      DivUnique(p, s1, r, c);
    }
  }

  /** What cell q of the volume holds after the loop: the encoding of point
      q, or the empty vector, standing for memory the function never
      writes, when q is no point or a skipped one. */
  function StoredAt(dp: ColMatrix, numPoints: nat, numSigma: nat, subsDim: int,
                    leftVectors: seq<seq<real>> -> seq<seq<real>>, sqrt: real -> real, q: int): seq<real>
    requires dp.Valid() && dp.rows >= 1 && ThinSvd(leftVectors, dp.rows) && IsSqrt(sqrt)
  {
    if 0 <= q < numPoints && PointEncoding(dp, q, numSigma, subsDim, leftVectors, sqrt).Success? then
      match PointEncoding(dp, q, numSigma, subsDim, leftVectors, sqrt).value
      case Encoded(h) => h
      case Skipped => []
    else []
  }

  /** `memcpy(sls.ptr<float>(p / s1, p % s1), h, ...)`: cell (p / s1, p % s1)
      receives h and no other cell changes. */
  method StorePoint(sls: array2<seq<real>>, p: nat, h: seq<real>)
    requires p < sls.Length1 * sls.Length0
    modifies sls
    ensures forall r, c :: 0 <= r < sls.Length0 && 0 <= c < sls.Length1 && CellIndex(r, c, sls.Length1) == p ==>
      sls[r, c] == h
    ensures forall r, c :: 0 <= r < sls.Length0 && 0 <= c < sls.Length1 && CellIndex(r, c, sls.Length1) != p ==>
      sls[r, c] == old(sls[r, c])
  {
    CellOfPoint(p, sls.Length1, sls.Length0);
    sls[p / sls.Length1, p % sls.Length1] := h;
  }

  /** computeSLSDescriptors: the s2 x s1 volume whose cell (p / s1, p % s1)
      holds the encoding of point p, or the error of the first point whose
      block is narrower than the subspace dimension. */
  method ComputeSlsDescriptors(dp: ColMatrix, numPoints: nat, s1: nat, s2: nat, numSigma: nat, subsDim: int,
                               leftVectors: seq<seq<real>> -> seq<seq<real>>, sqrt: real -> real)
    returns (res: Result<array2<seq<real>>, SlsError>)
    requires dp.Valid() && dp.rows >= 1 && ThinSvd(leftVectors, dp.rows) && IsSqrt(sqrt)
    requires numPoints <= s1 * s2
    ensures res.Failure? <==> exists p :: 0 <= p < numPoints && RankTooLarge(dp, p, numSigma, subsDim)
    ensures res.Success? ==> fresh(res.value) && res.value.Length0 == s2 && res.value.Length1 == s1
    ensures res.Success? ==> forall r, c :: 0 <= r < s2 && 0 <= c < s1 ==>
      res.value[r, c] == StoredAt(dp, numPoints, numSigma, subsDim, leftVectors, sqrt, CellIndex(r, c, s1))
  {
    var D := dp.rows;
    var sls := new seq<real>[s2, s1]((r, c) => []);
    var inds := BuildInds(D);
    var diagScale := DiagScale(sqrt);
    var outcome := EncodePoints(sls, dp, numPoints, numSigma, subsDim, inds, diagScale, leftVectors, sqrt);
    if outcome.Failure? {
      return Failure(outcome.error);
    }
    StoredAll(sls, dp, numPoints, numSigma, subsDim, leftVectors, sqrt);
    return Success(sls);
  }

  /** The loop over points: encode each in turn and store it in its cell,
      stopping at the first point whose SVD fails. */
  method EncodePoints(sls: array2<seq<real>>, dp: ColMatrix, numPoints: nat, numSigma: nat, subsDim: int,
                      inds: seq<nat>, diagScale: real,
                      leftVectors: seq<seq<real>> -> seq<seq<real>>, sqrt: real -> real)
    returns (outcome: Result<(), SlsError>)
    requires dp.Valid() && dp.rows >= 1 && ThinSvd(leftVectors, dp.rows) && IsSqrt(sqrt)
    requires inds == UpperTriangle(dp.rows) && diagScale == DiagScale(sqrt)
    requires numPoints <= sls.Length1 * sls.Length0
    requires StoredBelow(sls, dp, numPoints, numSigma, subsDim, leftVectors, sqrt, 0)
    modifies sls
    ensures outcome.Failure? <==> exists p :: 0 <= p < numPoints && RankTooLarge(dp, p, numSigma, subsDim)
    ensures outcome.Success? ==> StoredBelow(sls, dp, numPoints, numSigma, subsDim, leftVectors, sqrt, numPoints)
  {
    for p := 0 to numPoints
      invariant forall q :: 0 <= q < p ==> !RankTooLarge(dp, q, numSigma, subsDim)
      invariant StoredBelow(sls, dp, numPoints, numSigma, subsDim, leftVectors, sqrt, p)
    {
      var step := ProcessPoint(sls, dp, numPoints, numSigma, subsDim, inds, diagScale, leftVectors, sqrt, p);
      if step.Failure? {
        return step;
      }
    }
    return Success(());
  }

  /** One iteration of the loop over points: encode point p and store its
      encoding, or report the SVD failure. */
  method ProcessPoint(sls: array2<seq<real>>, dp: ColMatrix, numPoints: nat, numSigma: nat, subsDim: int,
                      inds: seq<nat>, diagScale: real,
                      leftVectors: seq<seq<real>> -> seq<seq<real>>, sqrt: real -> real, p: nat)
    returns (step: Result<(), SlsError>)
    requires dp.Valid() && dp.rows >= 1 && ThinSvd(leftVectors, dp.rows) && IsSqrt(sqrt)
    requires inds == UpperTriangle(dp.rows) && diagScale == DiagScale(sqrt)
    requires p < numPoints <= sls.Length1 * sls.Length0
    requires StoredBelow(sls, dp, numPoints, numSigma, subsDim, leftVectors, sqrt, p)
    modifies sls
    ensures step.Failure? <==> RankTooLarge(dp, p, numSigma, subsDim)
    ensures step.Success? ==> StoredBelow(sls, dp, numPoints, numSigma, subsDim, leftVectors, sqrt, p + 1)
  {
    var cell := EncodePoint(dp, p, numSigma, subsDim, inds, diagScale, leftVectors, sqrt);
    PointFails(dp, p, numSigma, subsDim, leftVectors, sqrt);
    if cell.Failure? {
      return Failure(cell.error);
    }
    RecordPoint(sls, dp, numPoints, numSigma, subsDim, leftVectors, sqrt, p, cell.value);
    return Success(());
  }

  /** Once every point is stored, each cell holds exactly what StoredAt says. */
  lemma StoredAll(sls: array2<seq<real>>, dp: ColMatrix, numPoints: nat, numSigma: nat, subsDim: int,
                  leftVectors: seq<seq<real>> -> seq<seq<real>>, sqrt: real -> real)
    requires dp.Valid() && dp.rows >= 1 && ThinSvd(leftVectors, dp.rows) && IsSqrt(sqrt)
    requires StoredBelow(sls, dp, numPoints, numSigma, subsDim, leftVectors, sqrt, numPoints)
    ensures forall r, c :: 0 <= r < sls.Length0 && 0 <= c < sls.Length1 ==>
      sls[r, c] == StoredAt(dp, numPoints, numSigma, subsDim, leftVectors, sqrt, CellIndex(r, c, sls.Length1))
  {
  }

  /** The volume once the points below p are stored: cell q holds what it
      holds at the end for q < p, and is untouched otherwise. */
  ghost predicate StoredBelow(sls: array2<seq<real>>, dp: ColMatrix, numPoints: nat, numSigma: nat, subsDim: int,
                              leftVectors: seq<seq<real>> -> seq<seq<real>>, sqrt: real -> real, p: nat)
    requires dp.Valid() && dp.rows >= 1 && ThinSvd(leftVectors, dp.rows) && IsSqrt(sqrt)
    reads sls
  {
    forall r, c :: 0 <= r < sls.Length0 && 0 <= c < sls.Length1 ==>
      sls[r, c] == if CellIndex(r, c, sls.Length1) < p
                   then StoredAt(dp, numPoints, numSigma, subsDim, leftVectors, sqrt, CellIndex(r, c, sls.Length1))
                   else []
  }

  /** Store point p's encoding, if it has one, in its cell. */
  method RecordPoint(sls: array2<seq<real>>, dp: ColMatrix, numPoints: nat, numSigma: nat, subsDim: int,
                     leftVectors: seq<seq<real>> -> seq<seq<real>>, sqrt: real -> real, p: nat, cell: Cell)
    requires dp.Valid() && dp.rows >= 1 && ThinSvd(leftVectors, dp.rows) && IsSqrt(sqrt)
    requires p < numPoints <= sls.Length1 * sls.Length0
    requires PointEncoding(dp, p, numSigma, subsDim, leftVectors, sqrt) == Success(cell)
    requires StoredBelow(sls, dp, numPoints, numSigma, subsDim, leftVectors, sqrt, p)
    modifies sls
    ensures StoredBelow(sls, dp, numPoints, numSigma, subsDim, leftVectors, sqrt, p + 1)
  {
    ghost var stored := StoredAt(dp, numPoints, numSigma, subsDim, leftVectors, sqrt, p);
    if cell.Encoded? {
      assert stored == cell.h;
      StorePoint(sls, p, cell.h);
    } else {
      assert stored == [];
    }
  }

  // ---------------------------------------------------------------------
  // The channel count of the output volume
  // ---------------------------------------------------------------------

  /** OpenCV's largest channel count, CV_CN_MAX. */
  const MaxChannels: nat := 512

  /** The channels of a matrix created with type `CV_32FC(n)`: the type
      keeps n - 1 in nine bits, so a count above 512 wraps around. */
  function ChannelsAsWritten(n: nat): (c: nat)
    requires n >= 1
    ensures 1 <= c <= MaxChannels
    ensures n <= MaxChannels ==> c == n
    ensures n > MaxChannels ==> c < n
  {
    (n - 1) % MaxChannels + 1
  }

  /** As written, D = 32 (the default reduction) gives SL = 528 floats per
      cell but 16 channels, and D = 128 (no reduction) gives 8256 floats but
      64 channels: each memcpy of SL floats runs into the following cells,
      and the one into the last cell runs past the end of the volume. */
  lemma ChannelOverflow(s1: nat, s2: nat)
    requires s1 * s2 >= 1
    ensures TriangleSize(32) == 528 && ChannelsAsWritten(528) == 16
    ensures TriangleSize(128) == 8256 && ChannelsAsWritten(8256) == 64
    ensures (s2 * s1 - 1) * 16 + 528 > s2 * s1 * 16
    ensures (s2 * s1 - 1) * 64 + 8256 > s2 * s1 * 64
  {
    assert s1 * s2 == s2 * s1;
    MulPred(s2 * s1, 16);
    MulPred(s2 * s1, 64);
  }

  /** As written, for every D >= 32 the descriptor is longer than the cell:
      the copy into cell q reaches into cell q + 1, and the copy into the
      last of n cells ends past the n * channels floats allocated. */
  lemma ChannelsTooFew(D: nat, n: nat, q: nat)
    requires D >= 32 && q < n
    ensures TriangleSize(D) > MaxChannels
    ensures q * ChannelsAsWritten(TriangleSize(D)) + TriangleSize(D) > (q + 1) * ChannelsAsWritten(TriangleSize(D))
    ensures q == n - 1 ==> q * ChannelsAsWritten(TriangleSize(D)) + TriangleSize(D) > n * ChannelsAsWritten(TriangleSize(D))
  {
    MulMonotone(32, D, 33);
    MulMonotone(33, D + 1, D);
    assert D * (D + 1) >= 1056;
    DivBounds(D * (D + 1), 2);
    var ch := ChannelsAsWritten(TriangleSize(D));
    MulPred(q + 1, ch);
  }

  /** With SL channels per cell, as intended, the SL floats of cell q
      occupy [q * SL, (q + 1) * SL): inside the n * SL floats of the
      volume, and disjoint from every other cell's range. */
  lemma CellRangesDisjoint(SL: nat, n: nat, q: nat, q': nat)
    requires q < q' < n
    ensures q * SL + SL <= q' * SL
    ensures q' * SL + SL <= n * SL
  {
    MulPred(q + 1, SL);
    MulMonotone(q + 1, q', SL);
    MulPred(q' + 1, SL);
    MulMonotone(q' + 1, n, SL);
  }
}
