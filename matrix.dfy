// Dense real matrices stored row-major in a flat sequence, as the C++ code
// stores them in a `double *`: entry (i, j) of an n-by-n matrix lives at
// index i*n + j.  The lemmas at the top are the index arithmetic the solver
// does not find on its own.

module Matrix {

  lemma MulLower(x: int, n: nat)
    requires x >= 1
    ensures x * n >= n
  {
    assert x * n == n + (x - 1) * n;
  }

  lemma MulMono(x: nat, y: nat, n: nat)
    requires x <= y
    ensures x * n <= y * n
  {
    assert y * n == x * n + (y - x) * n;
  }

  lemma MulSucc(x: nat, n: nat)
    ensures (x + 1) * n == x * n + n
  {
  }

  /** Row i, column j of an n-by-n matrix is inside the flat buffer. */
  lemma FlatBound(n: nat, i: nat, j: nat)
    requires i < n && j < n
    ensures 0 <= i * n && i * n + j < n * n
  {
    assert i * n <= (n - 1) * n;
  }

  /** The flat index i*n + j gives back its row and column. */
  lemma FlatDivMod(n: nat, i: nat, j: nat)
    requires j < n
    ensures (i * n + j) / n == i && (i * n + j) % n == j
  {
    var k := i * n + j;
    var q, r := k / n, k % n;
    assert q * n + r == k;
    assert (q - i) * n == j - r;
    if q > i {
      MulLower(q - i, n);
    } else if q < i {
      MulLower(i - q, n);
    }
  }

  /** A flat index below n*n splits into a row and a column below n
      (the `i = floor(k/Ng); j = k % Ng` of the source). */
  lemma FlatSplit(n: nat, k: nat)
    requires k < n * n
    ensures k / n < n && k % n < n && (k / n) * n + k % n == k
  {
    if k / n >= n {
      MulLower(k / n - n + 1, n);
    }
  }

  /** Entry (i, j) of the row-major n-by-n matrix B. */
  function At(B: seq<real>, n: nat, i: nat, j: nat): real
    requires |B| == n * n && i < n && j < n
  {
    FlatBound(n, i, j);
    B[i * n + j]
  }

  ghost predicate Symmetric(B: seq<real>, n: nat)
    requires |B| == n * n
  {
    forall i, j :: 0 <= i < n && 0 <= j < n ==> At(B, n, i, j) == At(B, n, j, i)
  }

  /** B[i][0] + ... + B[i][m-1]. */
  function RowSum(B: seq<real>, n: nat, i: nat, m: nat): real
    requires |B| == n * n && i < n && m <= n
  {
    if m == 0 then 0.0 else RowSum(B, n, i, m - 1) + At(B, n, i, m - 1)
  }

  /** Kronecker delta (`delta` in the source). */
  function Delta(i: int, j: int): (d: int)
    ensures d == 0 || d == 1
    ensures d == 1 <==> i == j
  {
    if i == j then 1 else 0
  }

  /** B is Newman's modularity matrix of the adjacency matrix A with vertex
      degrees deg and normalisation norm: B_ij = A_ij - deg_i * deg_j * norm. */
  ghost predicate IsNewman(A: seq<real>, deg: seq<nat>, norm: real, B: seq<real>, n: nat)
  {
    |A| == n * n && |B| == n * n && |deg| == n &&
    forall i, j :: 0 <= i < n && 0 <= j < n ==>
      At(B, n, i, j) == At(A, n, i, j) - (deg[i] * deg[j]) as real * norm
  }

  lemma NewmanPairSymmetric(A: seq<real>, deg: seq<nat>, norm: real, B: seq<real>, n: nat, i: nat, j: nat)
    requires IsNewman(A, deg, norm, B, n) && i < n && j < n
    requires At(A, n, i, j) == At(A, n, j, i)
    ensures At(B, n, i, j) == At(B, n, j, i)
  {
    var d, d' := deg[i] * deg[j], deg[j] * deg[i];
    assert d == d';
    assert At(B, n, i, j) == At(A, n, i, j) - d as real * norm;
    assert At(B, n, j, i) == At(A, n, j, i) - d' as real * norm;
  }

  /** Newman's matrix of a symmetric adjacency matrix is symmetric. */
  lemma NewmanSymmetric(A: seq<real>, deg: seq<nat>, norm: real, B: seq<real>, n: nat)
    requires IsNewman(A, deg, norm, B, n) && Symmetric(A, n)
    ensures Symmetric(B, n)
  {
    forall i, j | 0 <= i < n && 0 <= j < n
      ensures At(B, n, i, j) == At(B, n, j, i)
    {
      NewmanPairSymmetric(A, deg, norm, B, n, i, j);
    }
  }

  /** G is the generalised modularity matrix of B: the row sum of B is taken
      off the diagonal, G_ij = B_ij - delta_ij * sum_k B_ik. */
  ghost predicate IsGeneralised(B: seq<real>, G: seq<real>, n: nat)
  {
    |B| == n * n && |G| == n * n &&
    forall i, j :: 0 <= i < n && 0 <= j < n ==>
      At(G, n, i, j) == At(B, n, i, j) - Delta(i, j) as real * RowSum(B, n, i, n)
  }

  lemma {:induction false} GeneralisedRowPrefix(B: seq<real>, G: seq<real>, n: nat, i: nat, m: nat)
    requires IsGeneralised(B, G, n) && i < n && m <= n
    ensures RowSum(G, n, i, m) == RowSum(B, n, i, m) - (if i < m then RowSum(B, n, i, n) else 0.0)
  {
    if m > 0 {
      GeneralisedRowPrefix(B, G, n, i, m - 1);
    }
  }

  /** Every row of the generalised matrix sums to zero, and the correction
      keeps a symmetric matrix symmetric. */
  lemma GeneralisedProperties(B: seq<real>, G: seq<real>, n: nat)
    requires IsGeneralised(B, G, n)
    ensures forall i :: 0 <= i < n ==> RowSum(G, n, i, n) == 0.0
    ensures Symmetric(B, n) ==> Symmetric(G, n)
  {
    forall i | 0 <= i < n
      ensures RowSum(G, n, i, n) == 0.0
    {
      GeneralisedRowPrefix(B, G, n, i, n);
    }
  }
}
