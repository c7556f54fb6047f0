/**
 Scaling and squaring in calc_matrix_exp: the matrix is halved until its norm is at
 most 1, some series is evaluated there, and the result is squared as often as the
 matrix was halved. The series itself is a parameter.
 */
module MatrixExp {
  import opened RealSum
  import opened Matrix

  // ----- powers -----

  function Triple(A: Matrix, B: Matrix, C: Matrix, i: int, j: int, k: int, l: int): real {
    At(A, i, l) * At(B, l, k) * At(C, k, j)
  }

  lemma TripleFactors(A: Matrix, B: Matrix, C: Matrix, i: int, j: int, k: int, l: int)
    ensures Triple(A, B, C, i, j, k, l) == At(C, k, j) * (At(A, i, l) * At(B, l, k))
    ensures Triple(A, B, C, i, j, k, l) == At(A, i, l) * (At(B, l, k) * At(C, k, j))
  {
    hide At;
    var a, b, c := At(A, i, l), At(B, l, k), At(C, k, j);
    assert a * b * c == c * (a * b) && a * b * c == a * (b * c);
  }

  /** One term of either bracketing of A * B * C, as a sum of triple products. */
  lemma LeftBracketTerm(A: Matrix, B: Matrix, C: Matrix, i: nat, j: nat, m: nat)
    requires Square(A) && Square(B) && Square(C) && |A| == |B| == |C| && i < |A| && j < |A| && m < |A|
    ensures At(Mul(A, B), i, m) * At(C, m, j) == Sum(|A|, l => Triple(A, B, C, i, j, m, l))
  {
    hide At, Triple, Mul;
    EntryOfProduct(A, B, i, m);
    forall l | 0 <= l < |A| { TripleFactors(A, B, C, i, j, m, l); }
    SumScale(|A|, At(C, m, j), l => At(A, i, l) * At(B, l, m), l => Triple(A, B, C, i, j, m, l));
  }

  lemma RightBracketTerm(A: Matrix, B: Matrix, C: Matrix, i: nat, j: nat, m: nat)
    requires Square(A) && Square(B) && Square(C) && |A| == |B| == |C| && i < |A| && j < |A| && m < |A|
    ensures At(A, i, m) * At(Mul(B, C), m, j) == Sum(|A|, k => Triple(A, B, C, i, j, k, m))
  {
    hide At, Triple, Mul;
    EntryOfProduct(B, C, m, j);
    forall k | 0 <= k < |A| { TripleFactors(A, B, C, i, j, k, m); }
    SumScale(|A|, At(A, i, m), k => At(B, m, k) * At(C, k, j), k => Triple(A, B, C, i, j, k, m));
  }

  lemma EntryOfProduct(A: Matrix, B: Matrix, i: nat, j: nat)
    requires Square(A) && Square(B) && |A| == |B| && i < |A| && j < |A|
    ensures At(Mul(A, B), i, j) == Sum(|A|, k => At(A, i, k) * At(B, k, j))
  {
  }

  lemma MulAssocEntry(A: Matrix, B: Matrix, C: Matrix, i: nat, j: nat)
    requires Square(A) && Square(B) && Square(C) && |A| == |B| == |C| && i < |A| && j < |A|
    ensures MulEntry(Mul(A, B), C, i, j) == MulEntry(A, Mul(B, C), i, j)
  {
    hide At, Triple, Mul;
    var f := (k: int, l: int) => Triple(A, B, C, i, j, k, l);
    forall m | 0 <= m < |A|
      ensures At(Mul(A, B), i, m) * At(C, m, j) == Sum(|A|, l => f(m, l))
      ensures At(A, i, m) * At(Mul(B, C), m, j) == Sum(|A|, k => f(k, m))
    {
      LeftBracketTerm(A, B, C, i, j, m);
      RightBracketTerm(A, B, C, i, j, m);
      SumEq(|A|, l => Triple(A, B, C, i, j, m, l), l => f(m, l));
      SumEq(|A|, k => Triple(A, B, C, i, j, k, m), k => f(k, m));
    }
    SumSwap(|A|, |A|, f, k => At(Mul(A, B), i, k) * At(C, k, j), l => At(A, i, l) * At(Mul(B, C), l, j));
  }

  lemma MulAssoc(A: Matrix, B: Matrix, C: Matrix)
    requires Square(A) && Square(B) && Square(C) && |A| == |B| == |C|
    ensures Mul(Mul(A, B), C) == Mul(A, Mul(B, C))
  {
    forall i, j | 0 <= i < |A| && 0 <= j < |A| { MulAssocEntry(A, B, C, i, j); }
    MatrixEq(Mul(Mul(A, B), C), Mul(A, Mul(B, C)));
  }

  lemma MulIdentity(A: Matrix)
    requires Square(A)
    ensures Mul(Eye(|A|), A) == A && Mul(A, Eye(|A|)) == A
  {
    forall i, j | 0 <= i < |A| && 0 <= j < |A|
      ensures Mul(Eye(|A|), A)[i][j] == A[i][j] && Mul(A, Eye(|A|))[i][j] == A[i][j]
    {
      SumSingle(|A|, i, k => At(Eye(|A|), i, k) * At(A, k, j));
      SumSingle(|A|, j, k => At(A, i, k) * At(Eye(|A|), k, j));
    }
    MatrixEq(Mul(Eye(|A|), A), A);
    MatrixEq(Mul(A, Eye(|A|)), A);
  }

  function Pow(P: Matrix, m: nat): (r: Matrix)
    requires Square(P)
    ensures |r| == |P| && Square(r)
  {
    if m == 0 then Eye(|P|) else Mul(P, Pow(P, m - 1))
  }

  function Exp2(k: nat): nat { if k == 0 then 1 else 2 * Exp2(k - 1) }

  /** 2^-k, obtained by halving k times. */
  function Half(k: nat): real { if k == 0 then 1.0 else Half(k - 1) * 0.5 }

  lemma {:induction false} HalfIsInverse(k: nat)
    ensures Half(k) * Exp2(k) as real == 1.0 && 0.0 < Half(k) <= 1.0
  {
    if k > 0 {
      HalfIsInverse(k - 1);
      assert Half(k) * Exp2(k) as real == Half(k - 1) * 0.5 * (2.0 * Exp2(k - 1) as real);
    }
  }

  lemma {:induction false} PowAdd(P: Matrix, a: nat, b: nat)
    requires Square(P)
    ensures Pow(P, a + b) == Mul(Pow(P, a), Pow(P, b))
  {
    if a == 0 {
      MulIdentity(Pow(P, b));
    } else {
      PowAdd(P, a - 1, b);
      MulAssoc(P, Pow(P, a - 1), Pow(P, b));
    }
  }

  /** The final loop of calc_matrix_exp: k squarings raise P to the power 2^k. */
  method SquareRepeatedly(P: Matrix, k: nat) returns (ret: Matrix)
    requires Square(P)
    ensures ret == Pow(P, Exp2(k))
  {
    ret := P;
    PowOne(P);
    for i := 0 to k
      invariant |ret| == |P| && Square(ret) && ret == Pow(P, Exp2(i))
    {
      PowAdd(P, Exp2(i), Exp2(i));
      ret := MxMultiply(ret, ret, |P|);
    }
  }

  // ----- the norm -----

  /** The largest of the first r row sums of absolute values, and at least 0. */
  function MaxRowNorm(M: Matrix, r: nat): real
  {
    if r == 0 then 0.0
    else if MaxRowNorm(M, r - 1) < RowNorm(M, r - 1) then RowNorm(M, r - 1) else MaxRowNorm(M, r - 1)
  }

  function InfNorm(M: Matrix): real { MaxRowNorm(M, |M|) }

  /** inf_norm: a running maximum over accumulated rows. */
  method ComputeInfNorm(M: Matrix) returns (max: real)
    requires Square(M)
    ensures max == InfNorm(M)
  {
    max := 0.0;
    for r := 0 to |M|
      invariant max == MaxRowNorm(M, r)
    {
      var acc := 0.0;
      for c := 0 to |M|
        invariant acc == Sum(c, c => Abs(At(M, r, c)))
      {
        acc := acc + Abs(M[r][c]);
      }
      max := if max < acc then acc else max;
    }
  }

  /** InfNorm is the maximum: it bounds every row norm, and is one of them unless it is 0. */
  lemma {:induction false} MaxRowNormIsMax(M: Matrix, n: nat)
    ensures forall r | 0 <= r < n :: RowNorm(M, r) <= MaxRowNorm(M, n)
    ensures MaxRowNorm(M, n) == 0.0 || exists r :: 0 <= r < n && RowNorm(M, r) == MaxRowNorm(M, n)
    ensures MaxRowNorm(M, n) >= 0.0
  {
    if n > 0 {
      MaxRowNormIsMax(M, n - 1);
      if MaxRowNorm(M, n - 1) < RowNorm(M, n - 1) { assert RowNorm(M, n - 1) == MaxRowNorm(M, n); }
    }
  }

  /** Abs is the value without its sign. */
  lemma AbsIsDistance(v: real)
    ensures Abs(v) >= 0.0 && (Abs(v) == v || Abs(v) == -v) && (Abs(v) == 0.0 <==> v == 0.0)
  {
  }

  /** Every entry is at most as far from 0 as the norm says. */
  lemma NormBoundsEntries(M: Matrix, r: nat, c: nat)
    requires Square(M) && r < |M| && c < |M|
    ensures -InfNorm(M) <= M[r][c] <= InfNorm(M)
  {
    hide Abs;
    MaxRowNormIsMax(M, |M|);
    assert RowNorm(M, r) <= InfNorm(M);
    AbsIsDistance(M[r][c]);
    var f := (k: int) => Abs(At(M, r, k));
    forall k ensures f(k) >= 0.0 { AbsIsDistance(At(M, r, k)); }
    OneOfTheSum(|M|, c, f);
    SumEq(|M|, k => Abs(At(M, r, k)), f);
  }

  lemma {:induction false} OneOfTheSum(n: nat, c: nat, f: int -> real)
    requires c < n && forall k :: f(k) >= 0.0
    ensures Sum(n, f) >= f(c) && Sum(n, f) >= 0.0
  {
    if c == n - 1 {
      SumNonNegative(n - 1, f);
    } else {
      OneOfTheSum(n - 1, c, f);
    }
  }

  lemma {:induction false} SumNonNegative(n: nat, f: int -> real)
    requires forall k :: f(k) >= 0.0
    ensures Sum(n, f) >= 0.0
  {
    if n > 0 { SumNonNegative(n - 1, f); }
  }

  lemma AbsEntryScaled(a: real, M: Matrix, r: nat, c: nat)
    requires Square(M) && 0.0 < a && r < |M| && c < |M|
    ensures Abs(At(Scale(a, M), r, c)) == a * Abs(At(M, r, c))
  {
    AbsScaled(a, M[r][c]);
  }

  lemma RowNormScaled(a: real, M: Matrix, r: nat)
    requires Square(M) && 0.0 < a && r < |M|
    ensures RowNorm(Scale(a, M), r) == a * RowNorm(M, r)
  {
    hide Abs, At;
    forall c | 0 <= c < |M| { AbsEntryScaled(a, M, r, c); }
    SumScale(|M|, a, c => Abs(At(M, r, c)), c => Abs(At(Scale(a, M), r, c)));
  }

  lemma {:induction false} MaxRowNormScaled(a: real, M: Matrix, S: Matrix, n: nat)
    requires 0.0 < a && forall r | 0 <= r < n :: RowNorm(S, r) == a * RowNorm(M, r)
    ensures MaxRowNorm(S, n) == a * MaxRowNorm(M, n)
  {
    hide RowNorm;
    if n > 0 {
      MaxRowNormScaled(a, M, S, n - 1);
      MaxScaled(a, MaxRowNorm(M, n - 1), RowNorm(M, n - 1),
                MaxRowNorm(S, n - 1), RowNorm(S, n - 1), MaxRowNorm(M, n));
    }
  }

  lemma MaxScaled(a: real, x: real, y: real, x': real, y': real, max: real)
    requires 0.0 < a && x' == a * x && y' == a * y && max == if x < y then y else x
    ensures (if x' < y' then y' else x') == a * max
  {
    ScaleOrder(a, x, y);
  }

  lemma AbsScaled(a: real, x: real)
    requires 0.0 < a
    ensures Abs(a * x) == a * Abs(x)
  {
    ScaleOrder(a, x, 0.0);
  }

  lemma ScaleOrder(a: real, x: real, y: real)
    requires 0.0 < a
    ensures x < y <==> a * x < a * y
  {
    if x < y { assert a * (y - x) > 0.0; } else { assert a * (x - y) >= 0.0; }
  }

  /** The norm is homogeneous, so scaling the norm predicts the norm of the scaled matrix. */
  lemma InfNormScaled(a: real, M: Matrix)
    requires Square(M) && 0.0 < a
    ensures InfNorm(Scale(a, M)) == a * InfNorm(M)
  {
    hide RowNorm;
    forall r | 0 <= r < |M| { RowNormScaled(a, M, r); }
    MaxRowNormScaled(a, M, Scale(a, M), |M|);
  }

  /**
   log2_ceil: halves the scale while norm * scale > 1. It terminates with the least number
   of halvings that brings the norm of the scaled matrix down to 1.
   */
  method Log2Ceil(M: Matrix) returns (log: nat, scale: real)
    requires Square(M)
    ensures scale == Half(log)
    ensures InfNorm(Scale(scale, M)) <= 1.0
    ensures forall k: nat | k < log :: InfNorm(Scale(Half(k), M)) > 1.0
  {
    hide Scale, InfNorm;
    log, scale := 0, 1.0;
    var norm := ComputeInfNorm(M);
    NormAtHalf(M, 0);
    while norm * scale > 1.0
      invariant scale == Half(log) && norm * scale == InfNorm(Scale(Half(log), M))
      invariant forall k: nat | k < log :: InfNorm(Scale(Half(k), M)) > 1.0
      decreases 2.0 * InfNorm(Scale(Half(log), M))
    {
      NormAtHalf(M, log);
      NormAtHalf(M, log + 1);
      scale := scale * 0.5;
      log := log + 1;
    }
  }

  /** The loop's estimate norm * 2^-k is exact, and halves in every step. */
  lemma NormAtHalf(M: Matrix, k: nat)
    requires Square(M)
    ensures InfNorm(M) * Half(k) == InfNorm(Scale(Half(k), M))
    ensures k > 0 ==> InfNorm(M) * Half(k) == 0.5 * (InfNorm(M) * Half(k - 1))
  {
    hide Scale, InfNorm;
    HalfIsInverse(k);
    InfNormScaled(Half(k), M);
  }

  // ----- the whole algorithm, around an arbitrary series -----

  ghost predicate ShapePreserving(series: Matrix -> Matrix, n: nat) {
    forall A {:trigger series(A)} | Square(A) && |A| == n :: Square(series(A)) && |series(A)| == n
  }

  /** The law of the exponential that squaring relies on: E(2A) = E(A) * E(A). */
  ghost predicate Doubling(series: Matrix -> Matrix, n: nat)
    requires ShapePreserving(series, n)
  {
    forall A {:trigger series(Scale(2.0, A))} | Square(A) && |A| == n ::
      series(Scale(2.0, A)) == Mul(series(A), series(A))
  }

  lemma DoubleHalf(M: Matrix, k: nat)
    requires Square(M)
    ensures Scale(2.0, Scale(Half(k + 1), M)) == Scale(Half(k), M)
  {
    MatrixEq(Scale(2.0, Scale(Half(k + 1), M)), Scale(Half(k), M));
  }

  /** A series with the doubling law is not changed by scaling and squaring. */
  lemma {:induction false} SquaringUndoesScaling(series: Matrix -> Matrix, M: Matrix, k: nat)
    requires Square(M) && ShapePreserving(series, |M|) && Doubling(series, |M|)
    ensures Pow(series(Scale(Half(k), M)), Exp2(k)) == series(M)
  {
    hide Scale, Mul, Pow;
    var E := series(Scale(Half(k), M));
    if k == 0 {
      MatrixEq(Scale(1.0, M), M);
      PowOne(E);
    } else {
      SquaringUndoesScaling(series, M, k - 1);
      DoubleHalf(M, k - 1);
      PowOfSquare(E, Exp2(k - 1));
    }
  }

  lemma PowOne(P: Matrix)
    requires Square(P)
    ensures Pow(P, 1) == P
  {
    assert Pow(P, 1) == Mul(P, Pow(P, 0));
    MulIdentity(P);
  }

  lemma {:induction false} PowOfSquare(P: Matrix, m: nat)
    requires Square(P)
    ensures Pow(Mul(P, P), m) == Pow(P, 2 * m)
  {
    if m > 0 {
      PowOfSquare(P, m - 1);
      MulAssoc(P, P, Pow(P, 2 * (m - 1)));
      assert Pow(P, 2 * m) == Mul(P, Pow(P, 2 * m - 1));
    }
  }

  /** calc_matrix_exp around any series: the scaling before and the squaring after it. */
  method ScaleAndSquare(mx: Matrix, series: Matrix -> Matrix) returns (ret: Matrix, k: nat)
    requires Square(mx) && ShapePreserving(series, |mx|)
    ensures InfNorm(Scale(Half(k), mx)) <= 1.0
    ensures forall j: nat | j < k :: InfNorm(Scale(Half(j), mx)) > 1.0
    ensures ret == Pow(series(Scale(Half(k), mx)), Exp2(k))
    ensures Doubling(series, |mx|) ==> ret == series(mx)
  {
    hide Scale, Mul, Pow;
    var scale;
    k, scale := Log2Ceil(mx);
    ret := SquareRepeatedly(series(Scale(scale, mx)), k);
    if Doubling(series, |mx|) { SquaringUndoesScaling(series, mx, k); }
  }

  // ----- the power series -----

  function Add(A: Matrix, B: Matrix): (t: Matrix)
    requires Square(A) && Square(B) && |A| == |B|
    ensures |t| == |A| && Square(t)
    ensures forall r, c | 0 <= r < |A| && 0 <= c < |A| :: t[r][c] == A[r][c] + B[r][c]
  {
    seq(|A|, r requires 0 <= r < |A| => seq(|A|, c requires 0 <= c < |A| => A[r][c] + B[r][c]))
  }

  /** 1 / k!. */
  function InverseFactorial(k: nat): real {
    if k == 0 then 1.0 else InverseFactorial(k - 1) * (1.0 / k as real)
  }

  /** A^k / k!. */
  function Term(A: Matrix, k: nat): (t: Matrix)
    requires Square(A)
    ensures |t| == |A| && Square(t)
  {
    Scale(InverseFactorial(k), Pow(A, k))
  }

  /** The terms of the exponential series up to A^n / n!. */
  function PartialSum(A: Matrix, n: nat): (t: Matrix)
    requires Square(A)
    ensures |t| == |A| && Square(t)
  {
    if n == 0 then Eye(|A|) else Add(PartialSum(A, n - 1), Term(A, n))
  }

  function Zero(n: nat): (t: Matrix)
    ensures |t| == n && Square(t)
    ensures forall r, c | 0 <= r < n && 0 <= c < n :: t[r][c] == 0.0
  {
    seq(n, _ => seq(n, _ => 0.0))
  }

  /** The m terms after the n-th. */
  function Batch(A: Matrix, n: nat, m: nat): (t: Matrix)
    requires Square(A)
    ensures |t| == |A| && Square(t)
  {
    if m == 0 then Zero(|A|) else Add(Batch(A, n, m - 1), Term(A, n + m))
  }

  lemma AddZero(A: Matrix)
    requires Square(A)
    ensures Add(A, Zero(|A|)) == A
  {
    MatrixEq(Add(A, Zero(|A|)), A);
  }

  lemma AddAssoc(A: Matrix, B: Matrix, C: Matrix)
    requires Square(A) && Square(B) && Square(C) && |A| == |B| == |C|
    ensures Add(Add(A, B), C) == Add(A, Add(B, C))
  {
    MatrixEq(Add(Add(A, B), C), Add(A, Add(B, C)));
  }

  /** Summing a batch on its own first makes no difference. */
  lemma {:induction false} BatchExtendsSum(A: Matrix, n: nat, m: nat)
    requires Square(A)
    ensures Add(PartialSum(A, n), Batch(A, n, m)) == PartialSum(A, n + m)
    decreases m
  {
    hide Term, Add, Zero;
    if m == 0 {
      AddZero(PartialSum(A, n));
    } else {
      BatchExtendsSum(A, n, m - 1);
      AddAssoc(PartialSum(A, n), Batch(A, n, m - 1), Term(A, n + m));
    }
  }

  lemma NextPower(A: Matrix, k: nat)
    requires Square(A)
    ensures Mul(Pow(A, k), A) == Pow(A, k + 1)
  {
    PowAdd(A, k, 1);
    PowOne(A);
  }

  lemma {:induction false} InverseFactorialPositive(k: nat)
    ensures InverseFactorial(k) > 0.0
  {
    if k > 0 {
      InverseFactorialPositive(k - 1);
      assert 1.0 / k as real > 0.0;
    }
  }

  lemma PowZero(A: Matrix)
    requires Square(A)
    ensures Pow(A, 0) == Eye(|A|)
  {
  }

  function Factorial(k: nat): (f: nat)
    ensures f > 0
  {
    if k == 0 then 1 else k * Factorial(k - 1)
  }

  /** The coefficients that the loop multiplies up are the inverses of the factorials. */
  lemma InverseFactorialIsInverse(k: nat)
    ensures InverseFactorial(k) * Factorial(k) as real == 1.0
    ensures InverseFactorial(k) == 1.0 / Factorial(k) as real
  {
    hide InverseFactorial, Factorial;
    InverseFactorialProduct(k);
    QuotientFromProduct(InverseFactorial(k), Factorial(k) as real);
  }

  lemma {:induction false} InverseFactorialProduct(k: nat)
    ensures InverseFactorial(k) * Factorial(k) as real == 1.0
  {
    if k > 0 {
      InverseFactorialProduct(k - 1);
      InverseFactorialNext(k);
    }
  }

  lemma InverseFactorialNext(k: nat)
    requires k > 0 && InverseFactorial(k - 1) * Factorial(k - 1) as real == 1.0
    ensures InverseFactorial(k) * Factorial(k) as real == 1.0
  {
    InverseProduct(InverseFactorial(k - 1), Factorial(k - 1), k);
  }

  lemma InverseProduct(x: real, f: nat, k: nat)
    requires k > 0 && x * f as real == 1.0
    ensures x * (1.0 / k as real) * (k * f) as real == 1.0
  {
    var r, g := k as real, f as real;
    assert (k * f) as real == r * g;
    assert (1.0 / r) * r == 1.0;
    Regroup(x, 1.0 / r, r, g);
  }

  lemma Regroup(x: real, y: real, r: real, g: real)
    ensures x * y * (r * g) == (x * g) * (y * r)
  {
  }

  lemma QuotientFromProduct(x: real, f: real)
    requires f > 0.0 && x * f == 1.0
    ensures x == 1.0 / f
  {
  }

  /** Entry (i, j) of A^k / k!. */
  function SeriesTerm(A: Matrix, i: int, j: int, k: int): real
    requires Square(A)
  {
    if k < 0 then 0.0 else At(Pow(A, k), i, j) / Factorial(k) as real
  }

  lemma TermEntry(A: Matrix, k: nat, i: nat, j: nat)
    requires Square(A) && i < |A| && j < |A|
    ensures Term(A, k)[i][j] == SeriesTerm(A, i, j, k)
  {
    hide Pow, InverseFactorial, Factorial;
    InverseFactorialIsInverse(k);
    Quotient(Pow(A, k)[i][j], Factorial(k) as real);
  }

  lemma Quotient(x: real, f: real)
    requires f > 0.0
    ensures (1.0 / f) * x == x / f
  {
  }

  /** Entry by entry a partial sum is the sum of the A^k / k! for all k up to n. */
  lemma {:induction false} PartialSumEntry(A: Matrix, n: nat, i: nat, j: nat)
    requires Square(A) && i < |A| && j < |A|
    ensures PartialSum(A, n)[i][j] == Sum(n + 1, k => SeriesTerm(A, i, j, k))
  {
    hide Pow, Term, SeriesTerm;
    var f := (k: int) => SeriesTerm(A, i, j, k);
    if n == 0 {
      FirstSeriesTerm(A, i, j);
      assert Sum(1, f) == Sum(0, f) + f(0);
    } else {
      PartialSumEntry(A, n - 1, i, j);
      TermEntry(A, n, i, j);
      SumEq(n, k => SeriesTerm(A, i, j, k), f);
      assert Sum(n + 1, f) == Sum(n, f) + f(n);
    }
    SumEq(n + 1, k => SeriesTerm(A, i, j, k), f);
  }

  lemma FirstSeriesTerm(A: Matrix, i: nat, j: nat)
    requires Square(A) && i < |A| && j < |A|
    ensures SeriesTerm(A, i, j, 0) == Eye(|A|)[i][j]
  {
    PowZero(A);
  }

  lemma NextTerm(A: Matrix, k: nat)
    requires Square(A)
    ensures InverseFactorial(k) * (1.0 / (k + 1) as real) == InverseFactorial(k + 1) > 0.0
    ensures Mul(Pow(A, k), A) == Pow(A, k + 1)
    ensures Scale(InverseFactorial(k + 1), Pow(A, k + 1)) == Term(A, k + 1)
  {
    hide Pow, Mul, Scale;
    InverseFactorialPositive(k + 1);
    NextPower(A, k);
  }

  /** One batch: the power and the inverse factorial are carried on from the batch before. */
  method SumBatch(A: Matrix, n: nat, m: nat, power: Matrix, facInv: real)
      returns (accum: Matrix, power': Matrix, facInv': real)
    requires Square(A) && power == Pow(A, n) && facInv == InverseFactorial(n)
    ensures accum == Batch(A, n, m) && power' == Pow(A, n + m) && facInv' == InverseFactorial(n + m)
  {
    hide Pow, Mul, Scale, Add, Zero, InverseFactorial, Term;
    accum, power', facInv' := Zero(|A|), power, facInv;
    for i := 0 to m
      invariant accum == Batch(A, n, i) && power' == Pow(A, n + i) && facInv' == InverseFactorial(n + i)
    {
      var k := n + i + 1;
      NextTerm(A, n + i);
      facInv' := facInv' * (1.0 / k as real);
      assert facInv' != 0.0;
      power' := MxMultiply(power', A, |A|);
      assert power' == Pow(A, k) && facInv' == InverseFactorial(k);
      assert Scale(facInv', power') == Term(A, k);
      accum := Add(accum, Scale(facInv', power'));
      assert Batch(A, n, i + 1) == Add(Batch(A, n, i), Term(A, k));
    }
  }

  /** The loop of the series in batches of N * N terms; rounds is how often its stopping rule lets it go on. */
  method PowerSeries(A: Matrix, rounds: nat) returns (ret: Matrix)
    requires Square(A)
    ensures ret == PartialSum(A, rounds * (|A| * |A|))
  {
    hide Pow, Mul, Scale, Add, Zero;
    var size := |A| * |A|;
    var power := MakeEye(|A|, 1.0);
    ret := MakeEye(|A|, 1.0);
    var facInv := 1.0;
    assert power == Pow(A, 0) by { PowZero(A); }
    var n := 0;
    for r := 0 to rounds
      invariant n == r * size
      invariant ret == PartialSum(A, n) && power == Pow(A, n) && facInv == InverseFactorial(n)
    {
      var accum;
      accum, power, facInv := SumBatch(A, n, size, power, facInv);
      BatchExtendsSum(A, n, size);
      ret := Add(ret, accum);
      assert (r + 1) * size == r * size + size;
      n := n + size;
    }
  }

  /** calc_matrix_exp: a partial sum of the exponential series of the scaled matrix, raised to the power 2^k. */
  method CalcMatrixExp(mx: Matrix, rounds: nat) returns (ret: Matrix, k: nat)
    requires Square(mx)
    ensures InfNorm(Scale(Half(k), mx)) <= 1.0
    ensures forall j: nat | j < k :: InfNorm(Scale(Half(j), mx)) > 1.0
    ensures ret == Pow(PartialSum(Scale(Half(k), mx), rounds * (|mx| * |mx|)), Exp2(k))
  {
    hide Scale, Mul, Pow, PartialSum;
    var scale;
    k, scale := Log2Ceil(mx);
    ret := PowerSeries(Scale(scale, mx), rounds);
    ret := SquareRepeatedly(ret, k);
  }
}
