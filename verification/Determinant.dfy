/**
 The determinant expands along every row and along the first column, although the
 code only ever expands along the first row. From this follow the adjugate
 identity M * adj(M) = adj(M) * M = det(M) * I and the correctness of calc_inv.
 */
module Determinant {
  import opened RealSum
  import opened Matrix
  import opened Wrappers

  // ----- the terms of the expansions, 0 outside the matrix -----

  function Coef(M: Matrix, k: int, j: int): real {
    Sign(k + j) * At(M, k, j)
  }

  function Sub(M: Matrix, k: int, j: int): Matrix {
    if Square(M) && 0 <= k < |M| && 0 <= j < |M| then Minor(M, k, j) else []
  }

  function MinorDet(M: Matrix, k: int, j: int): real {
    if Square(M) && 0 <= k < |M| && 0 <= j < |M| then Det(Minor(M, k, j)) else 0.0
  }

  function RowTerm(M: Matrix, k: int, j: int): real {
    Coef(M, k, j) * MinorDet(M, k, j)
  }

  function RowSum(M: Matrix, k: int): real {
    Sum(|M|, j => RowTerm(M, k, j))
  }

  lemma {:induction false} PrefixIsSum(M: Matrix, k: nat)
    requires Square(M) && 0 < |M| && k <= |M|
    ensures DetPrefix(M, k) == Sum(k, j => RowTerm(M, 0, j))
  {
    if k > 0 { PrefixIsSum(M, k - 1); }
  }

  lemma DetIsFirstRowSum(M: Matrix)
    requires Square(M) && 0 < |M|
    ensures Det(M) == RowSum(M, 0)
  {
    PrefixIsSum(M, |M|);
  }

  lemma SignProduct(a: int, b: int)
    ensures Sign(a) * Sign(b) == Sign(a + b)
  {
  }

  // ----- expansion along any row -----

  /** Removing row 0 / column f and then row k / column g is the same in the other order. */
  lemma MinorsCommute(M: Matrix, k: nat, f: nat, g: nat)
    requires Square(M) && 0 < k < |M| && f < |M| && g < |M| && f != g
    ensures Minor(Minor(M, 0, f), k - 1, Drop(g, f)) == Minor(Minor(M, k, g), 0, Drop(f, g))
  {
    var A := Minor(Minor(M, 0, f), k - 1, Drop(g, f));
    var B := Minor(Minor(M, k, g), 0, Drop(f, g));
    forall r, c | 0 <= r < |A| && 0 <= c < |A| ensures A[r][c] == B[r][c] {
      assert Skip(Skip(c, Drop(g, f)), f) == Skip(Skip(c, Drop(f, g)), g);
    }
    MatrixEq(A, B);
  }

  /** The product over M[0][f], M[k][g] and the minor without both rows and columns. */
  function Pair(M: Matrix, k: int, f: int, g: int): real {
    if f == g then 0.0 else Coef(M, 0, f) * RowTerm(Sub(M, 0, f), k - 1, Drop(g, f))
  }

  lemma Reorder(a: real, b: real, a': real, b': real, d: real)
    requires a * b == b' * a'
    ensures a * (b * d) == b' * (a' * d)
  {
    assert a * (b * d) == (a * b) * d;
    assert b' * (a' * d) == (b' * a') * d;
  }

  lemma PairSigns(k: int, f: int, g: int, a: real, b: real)
    requires f != g
    ensures (Sign(f) * a) * (Sign(k - 1 + Drop(g, f)) * b) == (Sign(k + g) * b) * (Sign(Drop(f, g)) * a)
  {
    SignProduct(f, k - 1 + Drop(g, f));
    SignProduct(k + g, Drop(f, g));
    assert (f + (k - 1 + Drop(g, f))) % 2 == (k + g + Drop(f, g)) % 2;
    var s, t, s', t' := Sign(f), Sign(k - 1 + Drop(g, f)), Sign(k + g), Sign(Drop(f, g));
    assert (s * a) * (t * b) == (s * t) * (a * b);
    assert (s' * b) * (t' * a) == (s' * t') * (a * b);
  }

  lemma CoefInside(M: Matrix, k: nat, j: nat)
    requires k < |M| && j < |M[k]|
    ensures Coef(M, k, j) == Sign(k + j) * M[k][j]
  {
    hide Sign;
  }

  lemma MinorEntries(M: Matrix, k: nat, f: nat, g: nat)
    requires Square(M) && 0 < k < |M| && f < |M| && g < |M| && f != g
    ensures 0 <= Drop(g, f) < |M| - 1 && 0 <= Drop(f, g) < |M| - 1
    ensures Minor(M, 0, f)[k - 1][Drop(g, f)] == M[k][g] && Minor(M, k, g)[0][Drop(f, g)] == M[0][f]
  {
  }

  /** The parts of both readings of a pair: the inner coefficients and the common minor. */
  lemma PairParts(M: Matrix, k: nat, f: nat, g: nat)
    requires Square(M) && 0 < k < |M| && f < |M| && g < |M| && f != g
    ensures Coef(M, 0, f) == Sign(f) * M[0][f] && Coef(M, k, g) == Sign(k + g) * M[k][g]
    ensures Coef(Sub(M, 0, f), k - 1, Drop(g, f)) == Sign(k - 1 + Drop(g, f)) * M[k][g]
    ensures Coef(Sub(M, k, g), 0, Drop(f, g)) == Sign(Drop(f, g)) * M[0][f]
    ensures MinorDet(Sub(M, 0, f), k - 1, Drop(g, f)) == MinorDet(Sub(M, k, g), 0, Drop(f, g))
  {
    hide Det, Sign, Coef, At, Minor, Drop;
    MinorsCommute(M, k, f, g);
    MinorEntries(M, k, f, g);
    CoefInside(M, 0, f);
    CoefInside(M, k, g);
    CoefInside(Minor(M, 0, f), k - 1, Drop(g, f));
    CoefInside(Minor(M, k, g), 0, Drop(f, g));
  }

  /** The same product, read off the expansion of the minor at (k, g) instead. */
  lemma PairOtherWay(M: Matrix, k: nat, f: nat, g: nat)
    requires Square(M) && 0 < k < |M| && f < |M| && g < |M| && f != g
    ensures Pair(M, k, f, g) == Coef(M, k, g) * RowTerm(Sub(M, k, g), 0, Drop(f, g))
  {
    hide Coef, MinorDet, Sub;
    PairParts(M, k, f, g);
    PairSigns(k, f, g, M[0][f], M[k][g]);
    Reorder(Coef(M, 0, f), Coef(Sub(M, 0, f), k - 1, Drop(g, f)),
            Coef(Sub(M, k, g), 0, Drop(f, g)), Coef(M, k, g),
            MinorDet(Sub(M, 0, f), k - 1, Drop(g, f)));
  }

  /** Expanding the minor at (0, f) along row k - 1. */
  lemma FirstRowTermAsPairs(M: Matrix, A: Matrix, k: nat, f: nat)
    requires A == Sub(M, 0, f) && f <= |A| && MinorDet(M, 0, f) == RowSum(A, k - 1)
    ensures RowTerm(M, 0, f) == Sum(|A| + 1, g => Pair(M, k, f, g))
  {
    hide Det, Minor, DetPrefix, Sub, MinorDet, Coef;
    SumSpread(|A|, f, Coef(M, 0, f), j => RowTerm(A, k - 1, j), g => Pair(M, k, f, g));
  }

  /** Expanding the minor at (k, g) along its first row. */
  lemma RowTermAsPairs(M: Matrix, A: Matrix, k: nat, g: nat)
    requires A == Sub(M, k, g) && g <= |A| && MinorDet(M, k, g) == RowSum(A, 0)
    requires forall f | 0 <= f <= |A| && f != g :: Pair(M, k, f, g) == Coef(M, k, g) * RowTerm(A, 0, Drop(f, g))
    ensures RowTerm(M, k, g) == Sum(|A| + 1, f => Pair(M, k, f, g))
  {
    hide Det, Minor, DetPrefix, Sub, MinorDet, Coef;
    SumSpread(|A|, g, Coef(M, k, g), j => RowTerm(A, 0, j), f => Pair(M, k, f, g));
  }

  /** Laplace expansion along any row gives the determinant. */
  lemma {:induction false} RowExpansion(M: Matrix, k: nat)
    requires Square(M) && k < |M|
    ensures Det(M) == RowSum(M, k)
    decreases |M|
  {
    hide Det, DetPrefix, Coef, RowTerm, Pair;
    DetIsFirstRowSum(M);
    if k > 0 {
      var pair := (f, g) => Pair(M, k, f, g);
      forall f | 0 <= f < |M| ensures RowTerm(M, 0, f) == Sum(|M|, g => pair(f, g)) {
        RowExpansion(Minor(M, 0, f), k - 1);
        FirstRowTermAsPairs(M, Minor(M, 0, f), k, f);
        SumEq(|M|, g => pair(f, g), g => Pair(M, k, f, g));
      }
      forall g | 0 <= g < |M| ensures RowTerm(M, k, g) == Sum(|M|, f => pair(f, g)) {
        DetIsFirstRowSum(Minor(M, k, g));
        forall f | 0 <= f < |M| && f != g { PairOtherWay(M, k, f, g); }
        RowTermAsPairs(M, Minor(M, k, g), k, g);
        SumEq(|M|, f => pair(f, g), f => Pair(M, k, f, g));
      }
      SumSwap(|M|, |M|, pair, j => RowTerm(M, 0, j), j => RowTerm(M, k, j));
    }
  }

  // ----- two equal rows -----

  lemma OneByOne(M: Matrix)
    requires Square(M) && |M| == 1
    ensures Det(M) == M[0][0]
  {
    assert Det(Minor(M, 0, 0)) == 1.0;
    assert DetPrefix(M, 1) == DetPrefix(M, 0) + Sign(0) * M[0][0] * Det(Minor(M, 0, 0));
  }

  lemma TwoByTwo(M: Matrix)
    requires Square(M) && |M| == 2
    ensures Det(M) == M[0][0] * M[1][1] - M[0][1] * M[1][0]
  {
    OneByOne(Minor(M, 0, 0));
    OneByOne(Minor(M, 0, 1));
    assert DetPrefix(M, 1) == DetPrefix(M, 0) + Sign(0) * M[0][0] * Det(Minor(M, 0, 0));
    assert DetPrefix(M, 2) == DetPrefix(M, 1) + Sign(1) * M[0][1] * Det(Minor(M, 0, 1));
  }

  lemma {:induction false} EqualRowsZero(M: Matrix, a: nat, b: nat)
    requires Square(M) && a < |M| && b < |M| && a != b
    requires M[a] == M[b]
    ensures Det(M) == 0.0
    decreases |M|
  {
    if |M| == 2 {
      TwoByTwo(M);
    } else {
      hide Det, Coef;
      var k := if a != 0 && b != 0 then 0 else if a != 1 && b != 1 then 1 else 2;
      RowExpansion(M, k);
      forall j | 0 <= j < |M| ensures RowTerm(M, k, j) == 0.0 {
        var t := Minor(M, k, j);
        assert t[Drop(a, k)] == t[Drop(b, k)];
        EqualRowsZero(t, Drop(a, k), Drop(b, k));
      }
      SumZero(|M|, j => RowTerm(M, k, j));
    }
  }

  // ----- the adjugate identity -----

  /** The expansion of M with row k replaced by row i, in terms of the adjugate of M. */
  lemma ReplacedRowTerm(M: Matrix, i: nat, k: nat, j: nat)
    requires Square(M) && i < |M| && k < |M| && j < |M|
    ensures RowTerm(M[k := M[i]], k, j) == At(M, i, j) * At(Adjugate(M), j, k)
  {
    hide Det, Sign;
    var R := M[k := M[i]];
    MatrixEq(Minor(R, k, j), Minor(M, k, j));
    Rotate(M[i][j], Sign(k + j), Det(Minor(M, k, j)));
  }

  /** Row i of M times the cofactors of row k: the determinant, or 0 for different rows. */
  lemma RowTimesCofactors(M: Matrix, i: nat, k: nat)
    requires Square(M) && i < |M| && k < |M|
    ensures MulEntry(M, Adjugate(M), i, k) == if i == k then Det(M) else 0.0
  {
    hide Det, RowTerm, At, Adjugate;
    var R := M[k := M[i]];
    RowExpansion(R, k);
    forall j | 0 <= j < |M| { ReplacedRowTerm(M, i, k, j); }
    SumEq(|M|, j => At(M, i, j) * At(Adjugate(M), j, k), j => RowTerm(R, k, j));
    if i == k { assert R == M; } else { EqualRowsZero(R, i, k); }
  }

  lemma Rotate(a: real, s: real, d: real)
    ensures a * (s * d) == (s * a) * d
  {
  }

  /** M * adj(M) == det(M) * I, for every size. */
  lemma AdjugateIdentity(M: Matrix)
    requires Square(M)
    ensures Mul(M, Adjugate(M)) == Scale(Det(M), Eye(|M|))
  {
    hide Det;
    forall i, k | 0 <= i < |M| && 0 <= k < |M|
      ensures Mul(M, Adjugate(M))[i][k] == Scale(Det(M), Eye(|M|))[i][k]
    {
      RowTimesCofactors(M, i, k);
    }
    MatrixEq(Mul(M, Adjugate(M)), Scale(Det(M), Eye(|M|)));
  }

  // ----- expansion along the first column, and the transpose -----

  /** The double sum behind the column expansion: entry (0, 0) alone, and the pairs with column 0. */
  function ColumnPair(M: Matrix, f: int, r: int): real {
    if r != 0 then Pair(M, r, f, 0) else if f == 0 then RowTerm(M, 0, 0) else 0.0
  }

  /** Expanding the minor at (0, f) along its first column. */
  lemma FirstRowTermAsColumnPairs(M: Matrix, A: Matrix, f: nat)
    requires A == Sub(M, 0, f) && 0 < f <= |A|
    requires MinorDet(M, 0, f) == Sum(|A|, r => RowTerm(A, r, 0))
    ensures RowTerm(M, 0, f) == Sum(|A| + 1, r => ColumnPair(M, f, r))
  {
    hide Det, Minor, DetPrefix, Sub, MinorDet, Coef;
    SumSpread(|A|, 0, Coef(M, 0, f), r => RowTerm(A, r, 0), r => ColumnPair(M, f, r));
  }

  lemma {:induction false} FirstColumnExpansion(M: Matrix)
    requires Square(M) && 0 < |M|
    ensures Det(M) == Sum(|M|, r => RowTerm(M, r, 0))
    decreases |M|
  {
    hide Det, DetPrefix, Coef, RowTerm, MinorDet;
    var pair := (f, r) => ColumnPair(M, f, r);
    DetIsFirstRowSum(M);
    forall f | 0 <= f < |M| ensures RowTerm(M, 0, f) == Sum(|M|, r => pair(f, r)) {
      if f == 0 {
        SumSingle(|M|, 0, r => pair(0, r));
      } else {
        MinorColumn(M, f);
        FirstColumnExpansion(Minor(M, 0, f));
        FirstRowTermAsColumnPairs(M, Minor(M, 0, f), f);
        SumEq(|M|, r => pair(f, r), r => ColumnPair(M, f, r));
      }
    }
    forall r | 0 <= r < |M| ensures RowTerm(M, r, 0) == Sum(|M|, f => pair(f, r)) {
      if r == 0 {
        SumSingle(|M|, 0, f => pair(f, 0));
      } else {
        MinorColumn2(M, r);
        SumEq(|M|, f => pair(f, r), f => Pair(M, r, f, 0));
      }
    }
    SumSwap(|M|, |M|, pair, f => RowTerm(M, 0, f), r => RowTerm(M, r, 0));
  }

  lemma MinorColumn(M: Matrix, f: nat)
    requires Square(M) && 0 < f < |M|
    ensures Sub(M, 0, f) == Minor(M, 0, f) && MinorDet(M, 0, f) == Det(Minor(M, 0, f))
  {
    hide Det;
  }

  lemma MinorColumn2(M: Matrix, r: nat)
    requires Square(M) && 0 < r < |M|
    ensures RowTerm(M, r, 0) == Sum(|M|, f => Pair(M, r, f, 0))
  {
    hide Det, DetPrefix, Coef, RowTerm, Pair;
    DetIsFirstRowSum(Minor(M, r, 0));
    forall f | 0 <= f < |M| && f != 0 { PairOtherWay(M, r, f, 0); }
    RowTermAsPairs(M, Minor(M, r, 0), r, 0);
  }

  lemma MinorOfTranspose(M: Matrix, p: nat, q: nat)
    requires Square(M) && p < |M| && q < |M|
    ensures Minor(Transpose(M), p, q) == Transpose(Minor(M, q, p))
  {
    MatrixEq(Minor(Transpose(M), p, q), Transpose(Minor(M, q, p)));
  }

  lemma TransposedRowTerm(M: Matrix, j: nat)
    requires Square(M) && j < |M|
    requires Det(Transpose(Minor(M, j, 0))) == Det(Minor(M, j, 0))
    ensures RowTerm(Transpose(M), 0, j) == RowTerm(M, j, 0)
  {
    hide Det, Sign;
    MinorOfTranspose(M, 0, j);
  }

  /** A matrix and its transpose have the same determinant. */
  lemma {:induction false} DetTranspose(M: Matrix)
    requires Square(M)
    ensures Det(Transpose(M)) == Det(M)
    decreases |M|
  {
    if |M| > 0 {
      hide Det, RowTerm;
      var T := Transpose(M);
      DetIsFirstRowSum(T);
      FirstColumnExpansion(M);
      forall j | 0 <= j < |M| ensures RowTerm(T, 0, j) == RowTerm(M, j, 0) {
        DetTranspose(Minor(M, j, 0));
        TransposedRowTerm(M, j);
      }
      SumEq(|M|, j => RowTerm(T, 0, j), j => RowTerm(M, j, 0));
    }
  }

  lemma AdjugateTranspose(M: Matrix)
    requires Square(M)
    ensures Adjugate(Transpose(M)) == Transpose(Adjugate(M))
  {
    hide Det;
    forall i, j | 0 <= i < |M| && 0 <= j < |M|
      ensures Adjugate(Transpose(M))[j][i] == Transpose(Adjugate(M))[j][i]
    {
      MinorOfTranspose(M, i, j);
      DetTranspose(Minor(M, j, i));
    }
    MatrixEq(Adjugate(Transpose(M)), Transpose(Adjugate(M)));
  }

  lemma TransposeProduct(A: Matrix, B: Matrix)
    requires Square(A) && Square(B) && |A| == |B|
    ensures Transpose(Mul(A, B)) == Mul(Transpose(B), Transpose(A))
  {
    forall i, j | 0 <= i < |A| && 0 <= j < |A|
      ensures Transpose(Mul(A, B))[i][j] == Mul(Transpose(B), Transpose(A))[i][j]
    {
      SumEq(|A|, k => At(A, j, k) * At(B, k, i), k => At(Transpose(B), i, k) * At(Transpose(A), k, j));
    }
    MatrixEq(Transpose(Mul(A, B)), Mul(Transpose(B), Transpose(A)));
  }

  lemma TransposeTwice(M: Matrix)
    requires Square(M)
    ensures Transpose(Transpose(M)) == M
  {
    MatrixEq(Transpose(Transpose(M)), M);
  }

  lemma TransposeScaledIdentity(d: real, n: nat)
    ensures Transpose(Scale(d, Eye(n))) == Scale(d, Eye(n))
  {
    MatrixEq(Transpose(Scale(d, Eye(n))), Scale(d, Eye(n)));
  }

  /** adj(M) * M == det(M) * I, for every size. */
  lemma AdjugateIdentityLeft(M: Matrix)
    requires Square(M)
    ensures Mul(Adjugate(M), M) == Scale(Det(M), Eye(|M|))
  {
    hide Det, Adjugate, Mul, Scale, Eye, Transpose;
    AdjugateIdentity(Transpose(M));
    AdjugateTranspose(M);
    DetTranspose(M);
    TransposeProduct(Adjugate(M), M);
    TransposeTwice(Mul(Adjugate(M), M));
    TransposeScaledIdentity(Det(M), |M|);
  }

  // ----- calc_inv -----

  function DivideBy(A: Matrix, d: real): (t: Matrix)
    requires Square(A) && d != 0.0
    ensures |t| == |A| && Square(t)
    ensures forall r, c | 0 <= r < |A| && 0 <= c < |A| :: t[r][c] == A[r][c] / d
  {
    seq(|A|, r requires 0 <= r < |A| => seq(|A|, c requires 0 <= c < |A| => A[r][c] / d))
  }

  lemma DividedTerm(A: Matrix, B: Matrix, d: real, i: nat, j: nat, k: nat)
    requires Square(A) && Square(B) && |A| == |B| && d != 0.0 && i < |A| && j < |A| && k < |A|
    ensures At(A, i, k) * At(DivideBy(B, d), k, j) == (1.0 / d) * (At(A, i, k) * At(B, k, j))
    ensures At(DivideBy(A, d), i, k) * At(B, k, j) == (1.0 / d) * (At(A, i, k) * At(B, k, j))
  {
    var a, b := A[i][k], B[k][j];
    assert a * (b / d) == (1.0 / d) * (a * b) && (a / d) * b == (1.0 / d) * (a * b);
  }

  lemma DividedEntry(A: Matrix, B: Matrix, d: real, i: nat, j: nat)
    requires Square(A) && Square(B) && |A| == |B| && d != 0.0 && i < |A| && j < |A|
    ensures MulEntry(A, DivideBy(B, d), i, j) == (1.0 / d) * MulEntry(A, B, i, j)
    ensures MulEntry(DivideBy(A, d), B, i, j) == (1.0 / d) * MulEntry(A, B, i, j)
  {
    hide At, DivideBy;
    forall k | 0 <= k < |A| { DividedTerm(A, B, d, i, j, k); }
    var t := (k: int) => At(A, i, k) * At(B, k, j);
    SumScale(|A|, 1.0 / d, t, k => At(A, i, k) * At(DivideBy(B, d), k, j));
    SumScale(|A|, 1.0 / d, t, k => At(DivideBy(A, d), i, k) * At(B, k, j));
  }

  lemma Cancel(d: real, e: real)
    requires d != 0.0
    ensures (1.0 / d) * (d * e) == e
  {
    assert (1.0 / d) * d == 1.0;
  }

  lemma DividedProduct(A: Matrix, B: Matrix, d: real)
    requires Square(A) && Square(B) && |A| == |B| && d != 0.0 && Mul(A, B) == Scale(d, Eye(|A|))
    ensures Mul(A, DivideBy(B, d)) == Mul(DivideBy(A, d), B) == Eye(|A|)
  {
    hide MulEntry, DivideBy, Mul, Scale, Eye;
    var E := Eye(|A|);
    forall i, j | 0 <= i < |A| && 0 <= j < |A|
      ensures Mul(A, DivideBy(B, d))[i][j] == E[i][j] && Mul(DivideBy(A, d), B)[i][j] == E[i][j]
    {
      DividedEntry(A, B, d, i, j);
      assert MulEntry(A, B, i, j) == Mul(A, B)[i][j] == d * E[i][j];
      Cancel(d, E[i][j]);
    }
    MatrixEq(Mul(A, DivideBy(B, d)), E);
    MatrixEq(Mul(DivideBy(A, d), B), E);
  }

  /** Where the determinant is not zero, adj / det is a two-sided inverse. */
  lemma AdjugateOverDetIsInverse(M: Matrix)
    requires Square(M) && Det(M) != 0.0
    ensures Mul(M, DivideBy(Adjugate(M), Det(M))) == Eye(|M|)
    ensures Mul(DivideBy(Adjugate(M), Det(M)), M) == Eye(|M|)
  {
    hide Det, Adjugate, MulEntry, DivideBy, Mul, Scale, Eye;
    AdjugateIdentity(M);
    AdjugateIdentityLeft(M);
    DividedProduct(M, Adjugate(M), Det(M));
    DividedProduct(Adjugate(M), M, Det(M));
  }
}
