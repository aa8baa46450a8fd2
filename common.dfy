/** Shared vocabulary of the Scale-less SIFT model: outcomes, integer helpers,
    the abstract square root, and sums over real vectors. */
module Common {

  /** An operation either yields a value or stops with an error, the way an
      OpenCV assertion or a failed library call aborts the C++ function. */
  datatype Result<T, E> = Success(value: T) | Failure(error: E)

  function Min(a: int, b: int): int { if a <= b then a else b }

  function Max(a: int, b: int): int { if a >= b then a else b }

  /** Ceiling division as the source writes it, `(n + g - 1) / g`, for a
      non-negative numerator and a positive divisor. */
  function CeilDiv(n: nat, g: nat): (q: nat)
    requires g >= 1
    ensures q * g >= n && (q == 0 || (q - 1) * g < n)
  {
    DivBounds(n + g - 1, g);
    (n + g - 1) / g
  }

  lemma DivBounds(m: nat, g: nat)
    requires g >= 1
    ensures (m / g) * g <= m < (m / g) * g + g
  {
  }

  lemma MulAtLeast(k: int, g: int)
    requires k >= 1 && g >= 0
    ensures k * g >= g
  {
  }

  lemma MulNonNegative(a: int, b: int)
    requires a >= 0 && b >= 0
    ensures a * b >= 0
  {
  }

  /** One factor fewer: a * b is (a - 1) * b plus b. */
  lemma MulPred(a: int, b: int)
    ensures a * b == (a - 1) * b + b
  {
  }

  /** Euclidean division is determined by quotient and remainder. */
  lemma DivUnique(x: int, g: int, q: int, r: int)
    requires g >= 1 && 0 <= r < g && x == q * g + r
    ensures x / g == q && x % g == r
  {
    var q', r' := x / g, x % g;
    var k := q' - q;
    assert k * g == q' * g - q * g;
    assert k * g == r - r';
    if k >= 1 {
      MulAtLeast(k, g);
    } else if k <= -1 {
      MulAtLeast(-k, g);
    }
  }

  /** An index whose multiple of `g` stays below `n` is below ceil(n / g). */
  lemma BelowCeilDiv(c: nat, n: nat, g: nat)
    requires g >= 1 && c * g < n
    ensures c < CeilDiv(n, g)
  {
    var q := CeilDiv(n, g);
    if c >= q {
      MulMonotone(q, c, g);
    }
  }

  lemma MulMonotone(a: int, b: int, g: int)
    requires a <= b && g >= 0
    ensures a * g <= b * g
  {
    MulNonNegative(b - a, g);
    assert b * g - a * g == (b - a) * g;
  }

  /** An index below n blocks of g lies in a block numbered below n. */
  lemma DivBelow(j: nat, n: nat, g: nat)
    requires g >= 1 && j < n * g
    ensures j / g < n
  {
    DivBounds(j, g);
    if j / g >= n {
      MulMonotone(n, j / g, g);
    }
  }

  /** Removing `g` from a numerator larger than `g` removes one from the
      ceiling quotient. */
  lemma CeilDivStep(n: nat, g: nat)
    requires g >= 1 && n > g
    ensures CeilDiv(n, g) == 1 + CeilDiv(n - g, g)
  {
    var m := n - 1;
    DivUnique(m + g, g, m / g + 1, m % g);
  }

  lemma CeilDivSmall(n: nat, g: nat)
    requires g >= 1 && 0 < n <= g
    ensures CeilDiv(n, g) == 1
  {
    DivUnique(n + g - 1, g, 1, n - 1);
  }

  /** The square of a real, kept behind a name so that the solver reasons
      about it through the lemmas below rather than by nonlinear arithmetic. */
  function Sq(a: real): (r: real)
    ensures r >= 0.0
  {
    a * a
  }

  /** Only zero squares to zero. */
  lemma SquareNonZero(a: real)
    requires a != 0.0
    ensures Sq(a) != 0.0
  {
    assert Sq(a) * (1.0 / a) == a;
  }

  /** The square root is a floating-point primitive of the C++ standard
      library; the model receives it as a function and knows only this. */
  ghost predicate IsSqrt(sqrt: real -> real)
  {
    forall v: real {:trigger sqrt(v)} :: 0.0 <= v ==> 0.0 <= sqrt(v) && Sq(sqrt(v)) == v
  }

  /** `float`'s largest finite value, the initial best distance of the matcher. */
  const FltMax: real := 340282346638528859811704183484516925440.0

  function Sum(s: seq<real>): real
  {
    if |s| == 0 then 0.0 else s[0] + Sum(s[1..])
  }

  lemma {:induction false} SumAppend(a: seq<real>, b: seq<real>)
    ensures Sum(a + b) == Sum(a) + Sum(b)
  {
    if |a| == 0 {
      assert a + b == b;
    } else {
      assert (a + b)[1..] == a[1..] + b;
      SumAppend(a[1..], b);
    }
  }

  /** Sum of squares of a vector: the squared L2 norm. */
  function SumSq(s: seq<real>): (r: real)
    ensures r >= 0.0
  {
    if |s| == 0 then 0.0 else Sq(s[0]) + SumSq(s[1..])
  }

  lemma {:induction false} SumSqAppend(a: seq<real>, b: seq<real>)
    ensures SumSq(a + b) == SumSq(a) + SumSq(b)
  {
    if |a| == 0 {
      assert a + b == b;
    } else {
      assert (a + b)[1..] == a[1..] + b;
      SumSqAppend(a[1..], b);
    }
  }

  /** The inner product of two vectors of equal length. */
  function Dot(u: seq<real>, v: seq<real>): real
    requires |u| == |v|
  {
    if |u| == 0 then 0.0 else u[0] * v[0] + Dot(u[1..], v[1..])
  }

  function Zeros(n: nat): (z: seq<real>)
    ensures |z| == n && forall i :: 0 <= i < n ==> z[i] == 0.0
  {
    seq(n, _ => 0.0)
  }

  /** A matrix stored column by column, the way the descriptor stacks are
      indexed (`dpMat.col(j)`); every column has `rows` entries. */
  datatype ColMatrix = ColMatrix(rows: nat, columns: seq<seq<real>>)
  {
    ghost predicate Valid()
    {
      forall c :: 0 <= c < |columns| ==> |columns[c]| == rows
    }

    function Cols(): nat { |columns| }
  }
}
