/** Matrices over exact reals: the spec functions, and the C++ loops proved against them. */
module Matrix {
  import opened RealSum

  type Matrix = seq<seq<real>>

  predicate IsMatrix(M: Matrix, rows: nat, cols: nat) {
    |M| == rows && forall i | 0 <= i < rows :: |M[i]| == cols
  }

  predicate Square(M: Matrix) {
    IsMatrix(M, |M|, |M|)
  }

  /** M without row p and column q. */
  function Minor(M: Matrix, p: nat, q: nat): (t: Matrix)
    requires Square(M) && p < |M| && q < |M|
    ensures |t| == |M| - 1 && Square(t)
    ensures forall r, c | 0 <= r < |t| && 0 <= c < |t| :: t[r][c] == M[Skip(r, p)][Skip(c, q)]
  {
    seq(|M| - 1, r requires 0 <= r < |M| - 1 =>
      seq(|M| - 1, c requires 0 <= c < |M| - 1 => M[Skip(r, p)][Skip(c, q)]))
  }

  /** First-row Laplace expansion; the empty matrix has determinant 1. */
  function Det(M: Matrix): real
    requires Square(M)
    decreases |M|, |M| + 1
  {
    if |M| == 0 then 1.0 else DetPrefix(M, |M|)
  }

  /** The first k terms of the expansion. */
  function DetPrefix(M: Matrix, k: nat): real
    requires Square(M) && k <= |M| && |M| > 0
    decreases |M|, k
  {
    if k == 0 then 0.0
    else DetPrefix(M, k - 1) + Sign(k - 1) * M[0][k - 1] * Det(Minor(M, 0, k - 1))
  }

  /** Entry (j, i) of the adjugate is the signed minor at (i, j). */
  function Adjugate(M: Matrix): (a: Matrix)
    requires Square(M)
    ensures |a| == |M| && Square(a)
    ensures forall i, j | 0 <= i < |M| && 0 <= j < |M| :: a[j][i] == Sign(i + j) * Det(Minor(M, i, j))
  {
    seq(|M|, j requires 0 <= j < |M| =>
      seq(|M|, i requires 0 <= i < |M| => Sign(i + j) * Det(Minor(M, i, j))))
  }

  function Transpose(M: Matrix): (t: Matrix)
    requires Square(M)
    ensures |t| == |M| && Square(t)
    ensures forall r, c | 0 <= r < |M| && 0 <= c < |M| :: t[r][c] == M[c][r]
  {
    seq(|M|, r requires 0 <= r < |M| => seq(|M|, c requires 0 <= c < |M| => M[c][r]))
  }

  function Scale(a: real, M: Matrix): (t: Matrix)
    requires Square(M)
    ensures |t| == |M| && Square(t)
    ensures forall r, c | 0 <= r < |M| && 0 <= c < |M| :: t[r][c] == a * M[r][c]
  {
    seq(|M|, r requires 0 <= r < |M| => seq(|M|, c requires 0 <= c < |M| => a * M[r][c]))
  }

  function Eye(n: nat): (t: Matrix)
    ensures |t| == n && Square(t)
    ensures forall r, c | 0 <= r < n && 0 <= c < n :: t[r][c] == if r == c then 1.0 else 0.0
  {
    seq(n, r requires 0 <= r < n => seq(n, c requires 0 <= c < n => if r == c then 1.0 else 0.0))
  }

  /** Entry (i, j), and 0 outside the matrix, so that it can be used inside sums. */
  function At(M: Matrix, i: int, j: int): real {
    if 0 <= i < |M| && 0 <= j < |M[i]| then M[i][j] else 0.0
  }

  function MulEntry(A: Matrix, B: Matrix, i: int, j: int): real {
    Sum(|B|, k => At(A, i, k) * At(B, k, j))
  }

  function Mul(A: Matrix, B: Matrix): (t: Matrix)
    requires Square(A) && Square(B) && |A| == |B|
    ensures |t| == |A| && Square(t)
    ensures forall i, j | 0 <= i < |A| && 0 <= j < |A| :: t[i][j] == MulEntry(A, B, i, j)
  {
    seq(|A|, i requires 0 <= i < |A| => seq(|A|, j requires 0 <= j < |A| => MulEntry(A, B, i, j)))
  }

  /** A vector as a matrix of one column. */
  function Column(v: seq<real>): (t: Matrix)
    ensures IsMatrix(t, |v|, 1) && forall i | 0 <= i < |v| :: t[i][0] == v[i]
  {
    seq(|v|, i requires 0 <= i < |v| => [v[i]])
  }

  function Abs(v: real): real { if v < 0.0 then -v else v }

  function RowNorm(M: Matrix, r: int): real {
    Sum(|M|, c => Abs(At(M, r, c)))
  }

  lemma MatrixEq(A: Matrix, B: Matrix)
    requires Square(A) && Square(B) && |A| == |B|
    requires forall i, j | 0 <= i < |A| && 0 <= j < |A| :: A[i][j] == B[i][j]
    ensures A == B
  {
    forall i | 0 <= i < |A| ensures A[i] == B[i] {}
  }

  // ----- the C++ loops -----

  /** getCfactor: copies the rows above p, then those below, each without column q. */
  method GetCfactor(M: Matrix, p: nat, q: nat) returns (t: Matrix)
    requires Square(M) && p < |M| && q < |M|
    ensures t == Minor(M, p, q)
  {
    var n := |M|;
    t := seq(n - 1, r => seq(n - 1, c => 0.0));
    var r := 0;
    while r < p
      invariant 0 <= r <= p && |t| == n - 1 && Square(t)
      invariant forall i, c | 0 <= i < r && 0 <= c < n - 1 :: t[i][c] == M[Skip(i, p)][Skip(c, q)]
    {
      var row := CopyRowWithout(t[r], M[r], q);
      t := t[r := row];
      r := r + 1;
    }
    r := p + 1;
    while r < n
      invariant p + 1 <= r <= n && |t| == n - 1 && Square(t)
      invariant forall i, c | 0 <= i < r - 1 && 0 <= c < n - 1 :: t[i][c] == M[Skip(i, p)][Skip(c, q)]
    {
      var row := CopyRowWithout(t[r - 1], M[r], q);
      t := t[r - 1 := row];
      r := r + 1;
    }
    MatrixEq(t, Minor(M, p, q));
  }

  /** The inner loop of getCfactor: the running target index j lags behind c once q is passed. */
  method CopyRowWithout(target: seq<real>, source: seq<real>, q: nat) returns (row: seq<real>)
    requires q < |source| && |target| == |source| - 1
    ensures |row| == |target|
    ensures forall c | 0 <= c < |row| :: row[c] == source[Skip(c, q)]
  {
    row := target;
    var j := 0;
    for c := 0 to |source|
      invariant j == (if c <= q then c else c - 1) && |row| == |target|
      invariant forall i | 0 <= i < j :: row[i] == source[Skip(i, q)]
    {
      if c != q {
        row := row[j := source[c]];
        j := j + 1;
      }
    }
  }

  /** calc_det, with its 1x1 base case and alternating sign variable. */
  method CalcDet(M: Matrix) returns (d: real)
    requires Square(M) && |M| > 0
    ensures d == Det(M)
    decreases |M|
  {
    if |M| == 1 {
      assert Det(Minor(M, 0, 0)) == 1.0;
      assert DetPrefix(M, 1) == DetPrefix(M, 0) + Sign(0) * M[0][0] * Det(Minor(M, 0, 0));
      return M[0][0];
    }
    d := 0.0;
    var s := 1.0;
    for f := 0 to |M|
      invariant d == DetPrefix(M, f) && s == Sign(f)
    {
      var t := GetCfactor(M, 0, f);
      var dt := CalcDet(t);
      d := d + s * M[0][f] * dt;
      s := -s;
    }
  }

  /** calc_adj, writing each cofactor to the transposed position. */
  method CalcAdj(M: Matrix) returns (adj: Matrix)
    requires Square(M) && |M| > 0
    ensures adj == Adjugate(M)
  {
    var n := |M|;
    if n == 1 {
      assert Det(Minor(M, 0, 0)) == 1.0;
      adj := [[1.0]];
      MatrixEq(adj, Adjugate(M));
      return;
    }
    adj := seq(n, r => seq(n, c => 0.0));
    for i := 0 to n
      invariant |adj| == n && Square(adj)
      invariant forall i', j | 0 <= i' < i && 0 <= j < n :: adj[j][i'] == Sign(i' + j) * Det(Minor(M, i', j))
    {
      adj := WriteCofactors(M, i, adj);
    }
    MatrixEq(adj, Adjugate(M));
  }

  /** The inner loop of calc_adj: the cofactors of row i, written to column i. */
  method WriteCofactors(M: Matrix, i: nat, target: Matrix) returns (adj: Matrix)
    requires Square(M) && |M| > 1 && i < |M|
    requires Square(target) && |target| == |M|
    ensures |adj| == |M| && Square(adj)
    ensures forall j | 0 <= j < |M| :: adj[j][i] == Sign(i + j) * Det(Minor(M, i, j))
    ensures forall j, c | 0 <= j < |M| && 0 <= c < |M| && c != i :: adj[j][c] == target[j][c]
  {
    adj := target;
    for j := 0 to |M|
      invariant |adj| == |M| && Square(adj)
      invariant forall j' | 0 <= j' < j :: adj[j'][i] == Sign(i + j') * Det(Minor(M, i, j'))
      invariant forall j', c | 0 <= j' < |M| && 0 <= c < |M| && c != i :: adj[j'][c] == target[j'][c]
    {
      var s := 1 + -2 * ((i + j) % 2);
      var t := GetCfactor(M, i, j);
      var d := CalcDet(t);
      assert s as real == Sign(i + j);
      adj := adj[j := adj[j][i := s as real * d]];
    }
  }

  /** inner_product of two vectors of scalars. */
  method DotProduct(l: seq<real>, r: seq<real>) returns (ret: real)
    requires |l| == |r|
    ensures ret == Sum(|l|, k => At([l], 0, k) * At([r], 0, k))
  {
    ret := 0.0;
    for i := 0 to |l|
      invariant ret == Sum(i, k => At([l], 0, k) * At([r], 0, k))
    {
      ret := ret + l[i] * r[i];
    }
  }

  /** inner_product of a row of scalars with a vector of row vectors. */
  method InnerProduct(l: seq<real>, B: Matrix, cols: nat) returns (ret: seq<real>)
    requires IsMatrix(B, |l|, cols)
    ensures |ret| == cols
    ensures forall j | 0 <= j < cols :: ret[j] == Sum(|B|, k => At([l], 0, k) * At(B, k, j))
  {
    ret := seq(cols, _ => 0.0);
    for i := 0 to |B|
      invariant |ret| == cols
      invariant forall j | 0 <= j < cols :: ret[j] == Sum(i, k => At([l], 0, k) * At(B, k, j))
    {
      var prev := ret;
      ret := seq(cols, j requires 0 <= j < cols => prev[j] + l[i] * B[i][j]);
    }
  }

  /** mx_multiply of two matrices of fitting sizes: one inner product for each row. */
  method MxMultiply(A: Matrix, B: Matrix, cols: nat) returns (ret: Matrix)
    requires IsMatrix(A, |A|, |B|) && IsMatrix(B, |B|, cols)
    ensures IsMatrix(ret, |A|, cols)
    ensures forall i, j | 0 <= i < |A| && 0 <= j < cols :: ret[i][j] == MulEntry(A, B, i, j)
    ensures |A| == |B| == cols ==> ret == Mul(A, B)
  {
    var n := |A|;
    ret := seq(n, r => seq(cols, c => 0.0));
    for i := 0 to n
      invariant IsMatrix(ret, n, cols)
      invariant forall i', j | 0 <= i' < i && 0 <= j < cols :: ret[i'][j] == MulEntry(A, B, i', j)
    {
      var row := InnerProduct(A[i], B, cols);
      forall j | 0 <= j < cols ensures row[j] == MulEntry(A, B, i, j) {
        SumEq(|B|, k => At([A[i]], 0, k) * At(B, k, j), k => At(A, i, k) * At(B, k, j));
      }
      ret := ret[i := row];
    }
    if |A| == |B| == cols { MatrixEq(ret, Mul(A, B)); }
  }

  /** mx_multiply of a matrix with a vector of scalars, which is taken as a column. */
  method MxMultiplyVector(A: Matrix, v: seq<real>) returns (ret: seq<real>)
    requires IsMatrix(A, |A|, |v|)
    ensures |ret| == |A| && forall i | 0 <= i < |A| :: ret[i] == MulEntry(A, Column(v), i, 0)
  {
    ret := seq(|A|, _ => 0.0);
    for i := 0 to |A|
      invariant |ret| == |A| && forall i' | 0 <= i' < i :: ret[i'] == MulEntry(A, Column(v), i', 0)
    {
      var x := DotProduct(A[i], v);
      SumEq(|v|, k => At([A[i]], 0, k) * At([v], 0, k), k => At(A, i, k) * At(Column(v), k, 0));
      ret := ret[i := x];
    }
  }

  /** eye: a zero matrix with v written on the diagonal. */
  method MakeEye(n: nat, v: real) returns (r: Matrix)
    ensures r == Scale(v, Eye(n))
    ensures v == 1.0 ==> r == Eye(n)
  {
    r := seq(n, _ => seq(n, _ => 0.0));
    for i := 0 to n
      invariant |r| == n && Square(r)
      invariant forall j, c | 0 <= j < n && 0 <= c < n :: r[j][c] == if j == c && j < i then v else 0.0
    {
      r := r[i := r[i][i := v]];
    }
    MatrixEq(r, Scale(v, Eye(n)));
    if v == 1.0 { MatrixEq(r, Eye(n)); }
  }
}
