/** Finite sums of reals, the algebra behind inner products and determinants. */
module RealSum {

  /** f(0) + f(1) + ... + f(n-1), accumulated from the left as the C++ loops do. */
  function Sum(n: nat, f: int -> real): real {
    if n == 0 then 0.0 else Sum(n - 1, f) + f(n - 1)
  }

  /** The i-th index that is left when index k is removed. */
  function Skip(i: int, k: int): int {
    if i < k then i else i + 1
  }

  /** Where index j moves when index k is removed. */
  function Drop(j: int, k: int): int {
    if j < k then j else j - 1
  }

  /** +1 for even exponents, -1 for odd ones. */
  function Sign(k: int): real {
    if k % 2 == 0 then 1.0 else -1.0
  }

  lemma {:induction false} SumEq(n: nat, f: int -> real, g: int -> real)
    requires forall i | 0 <= i < n :: f(i) == g(i)
    ensures Sum(n, f) == Sum(n, g)
  {
    if n > 0 { SumEq(n - 1, f, g); }
  }

  lemma {:induction false} SumZero(n: nat, f: int -> real)
    requires forall i | 0 <= i < n :: f(i) == 0.0
    ensures Sum(n, f) == 0.0
  {
    if n > 0 { SumZero(n - 1, f); }
  }

  lemma {:induction false} SumAdd(n: nat, f: int -> real, g: int -> real, h: int -> real)
    requires forall i | 0 <= i < n :: h(i) == f(i) + g(i)
    ensures Sum(n, h) == Sum(n, f) + Sum(n, g)
  {
    if n > 0 { SumAdd(n - 1, f, g, h); }
  }

  lemma {:induction false} SumScale(n: nat, a: real, f: int -> real, g: int -> real)
    requires forall i | 0 <= i < n :: g(i) == a * f(i)
    ensures Sum(n, g) == a * Sum(n, f)
  {
    if n > 0 { SumScale(n - 1, a, f, g); }
  }

  /** The two orders of a double sum agree: r holds the row sums, c the column sums. */
  lemma {:induction false} SumSwap(n: nat, m: nat, f: (int, int) -> real, r: int -> real, c: int -> real)
    requires forall i | 0 <= i < n :: r(i) == Sum(m, j => f(i, j))
    requires forall j | 0 <= j < m :: c(j) == Sum(n, i => f(i, j))
    ensures Sum(n, r) == Sum(m, c)
  {
    if n == 0 {
      SumZero(m, c);
    } else {
      var c0 := (j: int) => Sum(n - 1, i => f(i, j));
      var last := (j: int) => f(n - 1, j);
      SumSwap(n - 1, m, f, r, c0);
      SumAdd(m, c0, last, c);
      SumEq(m, last, j => f(n - 1, j));
    }
  }

  /** Leaving out index k subtracts its term. */
  lemma {:induction false} SumSkip(n: nat, k: int, f: int -> real, g: int -> real)
    requires 0 <= k < n
    requires forall i | 0 <= i < n - 1 :: g(i) == f(Skip(i, k))
    ensures Sum(n - 1, g) == Sum(n, f) - f(k)
  {
    if k == n - 1 {
      SumEq(n - 1, g, f);
    } else {
      SumSkip(n - 1, k, f, g);
    }
  }

  /** A scaled sum over the indices left without q, as a sum over all indices. */
  lemma SumSpread(n: nat, q: int, a: real, t: int -> real, h: int -> real)
    requires 0 <= q <= n && h(q) == 0.0
    requires forall j | 0 <= j <= n && j != q :: h(j) == a * t(Drop(j, q))
    ensures a * Sum(n, t) == Sum(n + 1, h)
  {
    hide Sum;
    var g := (j: int) => a * t(j);
    SumScale(n, a, t, g);
    forall j | 0 <= j < n ensures g(j) == h(Skip(j, q)) {
      assert Drop(Skip(j, q), q) == j;
    }
    SumSkip(n + 1, q, h, g);
  }

  /** A sum with one non-zero term. */
  lemma {:induction false} SumSingle(n: nat, k: int, f: int -> real)
    requires 0 <= k < n
    requires forall i | 0 <= i < n && i != k :: f(i) == 0.0
    ensures Sum(n, f) == f(k)
  {
    if k == n - 1 { SumZero(n - 1, f); } else { SumSingle(n - 1, k, f); }
  }
}
