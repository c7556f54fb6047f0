/**
 The determinant is multiplicative, so a matrix whose determinant is 0 has no inverse:
 calc_inv gives up exactly on the singular matrices.
 */
module Inverse {
  import opened RealSum
  import opened Matrix
  import opened Determinant
  import opened MatrixExp
  import opened Wrappers

  // ----- adding a multiple of one row to another -----

  function AddRow(x: seq<real>, a: real, y: seq<real>): (r: seq<real>)
    requires |x| == |y|
    ensures |r| == |x| && forall c | 0 <= c < |r| :: r[c] == x[c] + a * y[c]
  {
    seq(|x|, c requires 0 <= c < |x| => x[c] + a * y[c])
  }

  lemma ReplacedRow(M: Matrix, i: nat, row: seq<real>, j: nat)
    requires Square(M) && i < |M| && j < |M| && |row| == |M|
    ensures RowTerm(M[i := row], i, j) == Sign(i + j) * row[j] * MinorDet(M, i, j)
  {
    hide Det, Sign;
    MatrixEq(Minor(M[i := row], i, j), Minor(M, i, j));
  }

  lemma Distribute(s: real, x: real, a: real, y: real, d: real)
    ensures s * (x + a * y) * d == s * x * d + a * (s * y * d)
  {
  }

  lemma DetAddRow(M: Matrix, i: nat, a: real, p: nat)
    requires Square(M) && i < |M| && p < |M| && i != p
    ensures Det(M[i := AddRow(M[i], a, M[p])]) == Det(M)
  {
    hide Det, Sign, MinorDet, RowTerm;
    var R, Q := M[i := AddRow(M[i], a, M[p])], M[i := M[p]];
    RowExpansion(R, i);
    RowExpansion(Q, i);
    RowExpansion(M, i);
    EqualRowsZero(Q, i, p);
    var m, q := (j: int) => RowTerm(M, i, j), (j: int) => RowTerm(Q, i, j);
    var aq := (j: int) => a * q(j);
    forall j | 0 <= j < |M| ensures RowTerm(R, i, j) == m(j) + aq(j) {
      ReplacedRow(M, i, AddRow(M[i], a, M[p]), j);
      ReplacedRow(M, i, M[p], j);
      ReplacedRow(M, i, M[i], j);
      assert M[i := M[i]] == M;
      Distribute(Sign(i + j), M[i][j], a, M[p][j], MinorDet(M, i, j));
    }
    SumScale(|M|, a, q, aq);
    SumAdd(|M|, m, aq, j => RowTerm(R, i, j));
  }

  /** Rows 1 to k - 1 with a multiple of row 0 added. */
  function AddFirstRow(M: Matrix, a: int -> real, k: nat): (r: Matrix)
    requires Square(M)
    ensures |r| == |M|
    ensures forall i | 0 <= i < |M| :: r[i] == if 0 < i < k then AddRow(M[i], a(i), M[0]) else M[i]
    ensures Square(r)
  {
    seq(|M|, i requires 0 <= i < |M| => if 0 < i < k then AddRow(M[i], a(i), M[0]) else M[i])
  }

  lemma {:induction false} DetAddFirstRow(M: Matrix, a: int -> real, k: nat)
    requires Square(M) && k <= |M|
    ensures Det(AddFirstRow(M, a, k)) == Det(M)
  {
    hide Det;
    if k <= 1 {
      assert AddFirstRow(M, a, k) == M;
    } else {
      DetAddFirstRow(M, a, k - 1);
      var R := AddFirstRow(M, a, k - 1);
      DetAddRow(R, k - 1, a(k - 1), 0);
      assert AddFirstRow(M, a, k) == R[k - 1 := AddRow(R[k - 1], a(k - 1), R[0])];
    }
  }

  // ----- the product -----

  /** A * B with its first row replaced by row q of B, as if row 0 of A were a unit vector. */
  function UnitRowProduct(A: Matrix, B: Matrix, q: nat): (r: Matrix)
    requires Square(A) && Square(B) && |A| == |B| && q < |A|
    ensures |r| == |A| && Square(r)
  {
    Mul(A, B)[0 := B[q]]
  }

  /** Without row q of B, what is left of the lower rows is a product of minors. */
  function Reduced(A: Matrix, B: Matrix, q: nat): (r: Matrix)
    requires Square(A) && Square(B) && |A| == |B| && q < |A|
    ensures |r| == |A| && Square(r)
  {
    AddFirstRow(UnitRowProduct(A, B, q), i => -At(A, i, q), |A|)
  }

  /** Entry (i, e) of A * B without its q-th term. */
  function WithoutTerm(A: Matrix, B: Matrix, q: int, i: int, e: int): real {
    MulEntry(A, B, i, e) - At(A, i, q) * At(B, q, e)
  }

  lemma ReducedIs(A: Matrix, B: Matrix, q: nat, i: nat, e: nat)
    requires Square(A) && Square(B) && |A| == |B| && q < |A| && 0 < i < |A| && e < |A|
    ensures Reduced(A, B, q)[i][e] == WithoutTerm(A, B, q, i, e)
  {
    hide MulEntry, Det;
    assert Reduced(A, B, q)[i][e] == Mul(A, B)[i][e] + -At(A, i, q) * B[q][e];
  }

  lemma MinorAt(M: Matrix, p: nat, q: nat, r: nat, c: nat)
    requires Square(M) && p < |M| && q < |M| && r < |M| - 1 && c < |M| - 1
    ensures At(Minor(M, p, q), r, c) == At(M, Skip(r, p), Skip(c, q))
  {
  }

  lemma MinorProductEntry(A: Matrix, B: Matrix, q: nat, j: nat, r: nat, c: nat)
    requires Square(A) && Square(B) && |A| == |B| && q < |A| && j < |A| && r < |A| - 1 && c < |A| - 1
    ensures MulEntry(Minor(A, 0, q), Minor(B, q, j), r, c) == WithoutTerm(A, B, q, r + 1, Skip(c, j))
  {
    hide At, Minor, Sum;
    var f := (k: int) => At(A, r + 1, k) * At(B, k, Skip(c, j));
    var g := (k: int) => At(Minor(A, 0, q), r, k) * At(Minor(B, q, j), k, c);
    forall k | 0 <= k < |A| - 1 ensures g(k) == f(Skip(k, q)) {
      MinorAt(A, 0, q, r, k);
      MinorAt(B, q, j, k, c);
    }
    SumSkip(|A|, q, f, g);
    SumEq(|A| - 1, g, k => At(Minor(A, 0, q), r, k) * At(Minor(B, q, j), k, c));
    SumEq(|A|, f, k => At(A, r + 1, k) * At(B, k, Skip(c, j)));
  }

  lemma MinorOfReduced(A: Matrix, B: Matrix, q: nat, j: nat)
    requires Square(A) && Square(B) && |A| == |B| && q < |A| && j < |A|
    ensures Minor(Reduced(A, B, q), 0, j) == Mul(Minor(A, 0, q), Minor(B, q, j))
  {
    hide Reduced, MulEntry, At, Det, WithoutTerm;
    forall r, c | 0 <= r < |A| - 1 && 0 <= c < |A| - 1
      ensures Minor(Reduced(A, B, q), 0, j)[r][c] == MulEntry(Minor(A, 0, q), Minor(B, q, j), r, c)
    {
      var e := Skip(c, j);
      assert Minor(Reduced(A, B, q), 0, j)[r][c] == Reduced(A, B, q)[r + 1][e];
      ReducedIs(A, B, q, r + 1, e);
      MinorProductEntry(A, B, q, j, r, c);
    }
    MatrixEq(Minor(Reduced(A, B, q), 0, j), Mul(Minor(A, 0, q), Minor(B, q, j)));
  }

  /** One term of the expansion of the reduced matrix, given the theorem for the minors. */
  lemma ReducedTerm(A: Matrix, B: Matrix, q: nat, j: nat)
    requires Square(A) && Square(B) && |A| == |B| && q < |A| && j < |A|
    requires Det(Mul(Minor(A, 0, q), Minor(B, q, j))) == Det(Minor(A, 0, q)) * Det(Minor(B, q, j))
    ensures RowTerm(Reduced(A, B, q), 0, j) == Sign(q) * Det(Minor(A, 0, q)) * RowTerm(B, q, j)
  {
    hide Det, Sign;
    var R := Reduced(A, B, q);
    MinorOfReduced(A, B, q, j);
    assert R[0][j] == B[q][j];
    SignShift(q, j);
    MoveSign(Sign(j), Sign(q), Sign(q + j), B[q][j], Det(Minor(A, 0, q)), Det(Minor(B, q, j)));
  }

  lemma SignShift(q: int, j: int)
    ensures Sign(q) * Sign(q + j) == Sign(j)
  {
    hide Sign;
    SignProduct(q, q + j);
    SignPeriod(q, j);
  }

  lemma SignPeriod(q: int, j: int)
    ensures Sign(q + (q + j)) == Sign(j)
  {
  }

  lemma MoveSign(s: real, s1: real, s2: real, b: real, d: real, e: real)
    requires s1 * s2 == s
    ensures (s * b) * (d * e) == (s1 * d) * ((s2 * b) * e)
  {
    assert (s1 * d) * ((s2 * b) * e) == (s1 * s2) * (b * (d * e));
    assert (s * b) * (d * e) == s * (b * (d * e));
  }

  lemma {:induction false} UnitRowDet(A: Matrix, B: Matrix, q: nat)
    requires Square(A) && Square(B) && |A| == |B| && q < |A|
    requires forall j | 0 <= j < |A| ::
      Det(Mul(Minor(A, 0, q), Minor(B, q, j))) == Det(Minor(A, 0, q)) * Det(Minor(B, q, j))
    ensures Det(UnitRowProduct(A, B, q)) == Sign(q) * Det(Minor(A, 0, q)) * Det(B)
  {
    hide Det, Sign, RowTerm, UnitRowProduct;
    DetAddFirstRow(UnitRowProduct(A, B, q), i => -At(A, i, q), |A|);
    DetIsFirstRowSum(Reduced(A, B, q));
    forall j | 0 <= j < |A| { ReducedTerm(A, B, q, j); }
    SumScale(|A|, Sign(q) * Det(Minor(A, 0, q)), j => RowTerm(B, q, j), j => RowTerm(Reduced(A, B, q), 0, j));
    RowExpansion(B, q);
  }

  function UnitDet(A: Matrix, B: Matrix, q: int): real {
    if Square(A) && Square(B) && |A| == |B| && 0 <= q < |A| then Det(UnitRowProduct(A, B, q)) else 0.0
  }

  function FirstRowTerm(A: Matrix, B: Matrix, j: int, q: int): real {
    if Square(A) && Square(B) && |A| == |B| && 0 <= q < |A|
    then At(A, 0, q) * RowTerm(UnitRowProduct(A, B, q), 0, j) else 0.0
  }

  lemma UnitDetExpands(A: Matrix, B: Matrix, q: nat)
    requires Square(A) && Square(B) && |A| == |B| && q < |A|
    ensures At(A, 0, q) * UnitDet(A, B, q) == Sum(|A|, j => FirstRowTerm(A, B, j, q))
  {
    hide Det, Sign, At, RowTerm, UnitRowProduct;
    DetIsFirstRowSum(UnitRowProduct(A, B, q));
    SumScale(|A|, At(A, 0, q), j => RowTerm(UnitRowProduct(A, B, q), 0, j), j => FirstRowTerm(A, B, j, q));
  }

  lemma FirstRowEntry(A: Matrix, B: Matrix, j: nat)
    requires Square(A) && Square(B) && |A| == |B| && j < |A|
    ensures RowTerm(Mul(A, B), 0, j) == Sum(|A|, q => FirstRowTerm(A, B, j, q))
  {
    hide Det, Sign, FirstRowTerm, Mul, MinorDet, At;
    var P := Mul(A, B);
    var w := Sign(j) * MinorDet(P, 0, j);
    var t := (q: int) => At(A, 0, q) * At(B, q, j);
    forall q | 0 <= q < |A| ensures FirstRowTerm(A, B, j, q) == w * t(q) {
      UnitTerm(A, B, j, q);
    }
    SumScale(|A|, w, t, q => FirstRowTerm(A, B, j, q));
    EntryOfProduct(A, B, 0, j);
    Collect(1.0, Sign(j), At(P, 0, j), MinorDet(P, 0, j));
  }

  /** The determinant of a product is linear in the first row of the left factor. */
  lemma ProductFirstRow(A: Matrix, B: Matrix)
    requires Square(A) && Square(B) && |A| == |B| && |A| > 0
    ensures Det(Mul(A, B)) == Sum(|A|, q => At(A, 0, q) * UnitDet(A, B, q))
  {
    hide Det, RowTerm, UnitDet, FirstRowTerm, At;
    var f := (j: int, q: int) => FirstRowTerm(A, B, j, q);
    DetIsFirstRowSum(Mul(A, B));
    forall j | 0 <= j < |A| ensures RowTerm(Mul(A, B), 0, j) == Sum(|A|, q => f(j, q)) {
      FirstRowEntry(A, B, j);
      SumEq(|A|, q => f(j, q), q => FirstRowTerm(A, B, j, q));
    }
    forall q | 0 <= q < |A| ensures At(A, 0, q) * UnitDet(A, B, q) == Sum(|A|, j => f(j, q)) {
      UnitDetExpands(A, B, q);
      SumEq(|A|, j => f(j, q), j => FirstRowTerm(A, B, j, q));
    }
    SumSwap(|A|, |A|, f, j => RowTerm(Mul(A, B), 0, j), q => At(A, 0, q) * UnitDet(A, B, q));
  }

  lemma UnitTerm(A: Matrix, B: Matrix, j: nat, q: nat)
    requires Square(A) && Square(B) && |A| == |B| && j < |A| && q < |A|
    ensures FirstRowTerm(A, B, j, q) == Sign(j) * MinorDet(Mul(A, B), 0, j) * (At(A, 0, q) * At(B, q, j))
  {
    hide Det, Sign, MinorDet, Mul;
    ReplacedRow(Mul(A, B), 0, B[q], j);
    Collect(At(A, 0, q), Sign(j), At(B, q, j), MinorDet(Mul(A, B), 0, j));
  }

  lemma Collect(a: real, s: real, b: real, d: real)
    ensures a * (s * b * d) == s * d * (a * b)
  {
  }

  lemma ProductTerm(A: Matrix, B: Matrix, q: nat)
    requires Square(A) && Square(B) && |A| == |B| && q < |A|
    requires forall j | 0 <= j < |A| ::
      Det(Mul(Minor(A, 0, q), Minor(B, q, j))) == Det(Minor(A, 0, q)) * Det(Minor(B, q, j))
    ensures At(A, 0, q) * UnitDet(A, B, q) == Det(B) * RowTerm(A, 0, q)
  {
    hide Det, Sign, Mul, At;
    UnitRowDet(A, B, q);
    var a, s, d, e := At(A, 0, q), Sign(q), Det(Minor(A, 0, q)), Det(B);
    assert a * (s * d * e) == e * ((s * a) * d);
  }

  lemma ProductSum(A: Matrix, B: Matrix)
    requires Square(A) && Square(B) && |A| == |B| && |A| > 0
    requires forall q | 0 <= q < |A| :: At(A, 0, q) * UnitDet(A, B, q) == Det(B) * RowTerm(A, 0, q)
    ensures Det(Mul(A, B)) == Det(A) * Det(B)
  {
    hide Det, Mul, RowTerm, UnitDet, At, Sum, Square;
    ProductFirstRow(A, B);
    DetIsFirstRowSum(A);
    SumScale(|A|, Det(B), q => RowTerm(A, 0, q), q => At(A, 0, q) * UnitDet(A, B, q));
  }

  lemma DetEmpty(M: Matrix)
    requires Square(M) && |M| == 0
    ensures Det(M) == 1.0
  {
  }

  /** det(A * B) == det(A) * det(B). */
  lemma {:induction false} DetProduct(A: Matrix, B: Matrix)
    requires Square(A) && Square(B) && |A| == |B|
    ensures Det(Mul(A, B)) == Det(A) * Det(B)
    decreases |A|
  {
    hide Det, Mul, RowTerm, UnitDet, At, Minor;
    if |A| == 0 {
      DetEmpty(A);
      DetEmpty(B);
      DetEmpty(Mul(A, B));
    } else {
      forall q | 0 <= q < |A| ensures At(A, 0, q) * UnitDet(A, B, q) == Det(B) * RowTerm(A, 0, q) {
        forall j | 0 <= j < |A| { DetProduct(Minor(A, 0, q), Minor(B, q, j)); }
        ProductTerm(A, B, q);
      }
      ProductSum(A, B);
    }
  }

  lemma {:induction false} DetIdentity(n: nat)
    ensures Det(Eye(n)) == 1.0
  {
    if n > 0 {
      hide Det;
      DetIdentity(n - 1);
      DetIsFirstRowSum(Eye(n));
      SumSingle(n, 0, j => RowTerm(Eye(n), 0, j));
      MatrixEq(Minor(Eye(n), 0, 0), Eye(n - 1));
    }
  }

  // ----- calc_inv -----

  ghost predicate IsInverse(M: Matrix, B: Matrix)
    requires Square(M)
  {
    Square(B) && |B| == |M| && Mul(M, B) == Eye(|M|) && Mul(B, M) == Eye(|M|)
  }

  /** A matrix with a right or a left inverse has a determinant other than 0. */
  lemma InvertibleHasDet(M: Matrix, B: Matrix)
    requires Square(M) && Square(B) && |B| == |M|
    requires Mul(M, B) == Eye(|M|) || Mul(B, M) == Eye(|M|)
    ensures Det(M) != 0.0
  {
    hide Det;
    DetProduct(M, B);
    DetProduct(B, M);
    DetIdentity(|M|);
  }

  lemma InverseUnique(M: Matrix, B: Matrix, C: Matrix)
    requires Square(M) && IsInverse(M, B) && IsInverse(M, C)
    ensures B == C
  {
    MulAssoc(B, M, C);
    MulIdentity(B);
    MulIdentity(C);
  }

  ghost predicate Invertible(M: Matrix, B: Matrix)
    requires Square(M)
  {
    Square(B) && |B| == |M| && (Mul(M, B) == Eye(|M|) || Mul(B, M) == Eye(|M|))
  }

  lemma SingularHasNoInverse(M: Matrix)
    requires Square(M) && Det(M) == 0.0
    ensures forall B :: !Invertible(M, B)
  {
    forall B ensures !Invertible(M, B) {
      if Invertible(M, B) { InvertibleHasDet(M, B); }
    }
  }

  lemma QuotientIsTheInverse(M: Matrix)
    requires Square(M) && Det(M) != 0.0
    ensures IsInverse(M, DivideBy(Adjugate(M), Det(M)))
    ensures forall B | IsInverse(M, B) :: B == DivideBy(Adjugate(M), Det(M))
    ensures Invertible(M, DivideBy(Adjugate(M), Det(M)))
  {
    hide Det, Mul, Eye, Adjugate;
    AdjugateOverDetIsInverse(M);
    forall B | IsInverse(M, B) ensures B == DivideBy(Adjugate(M), Det(M)) {
      InverseUnique(M, B, DivideBy(Adjugate(M), Det(M)));
    }
  }

  /** calc_inv: the one inverse where there is one, nothing for exactly the singular matrices. */
  method CalcInv(M: Matrix) returns (r: Option<Matrix>)
    requires Square(M) && |M| > 0
    ensures r.Some? ==> IsInverse(M, r.value) && forall B | IsInverse(M, B) :: B == r.value
    ensures r.None? <==> forall B :: !Invertible(M, B)
    ensures r.None? <==> Det(M) == 0.0
  {
    hide Det, Mul, Eye, Adjugate, DivideBy, IsInverse, Invertible;
    var d := CalcDet(M);
    if d == 0.0 {
      SingularHasNoInverse(M);
      return None;
    }
    var adj := CalcAdj(M);
    QuotientIsTheInverse(M);
    r := Some(DivideBy(adj, d));
  }
}
