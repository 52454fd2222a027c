// The algebra of a two-way split: a +1/-1 side per node (the source's `si`),
// its n-by-2 one-hot indicator matrix (`SI`), the split score that
// `deltaModularity` computes from the indicator matrix, and the closed-form
// gain of moving one node that `deltaModularityMax` computes.

module Bisection {
  import opened Matrix

  /** Every entry is +1 or -1. */
  predicate IsSign(s: seq<int>)
  {
    forall k :: 0 <= k < |s| ==> s[k] == 1 || s[k] == -1
  }

  /** The side a node starts on, from its eigenvector entry (a zero entry goes to +1). */
  function SignOf(x: real): int
  {
    if x < 0.0 then -1 else 1
  }

  /** Row k of SI is (1, 0) when si[k] = +1 and (0, 1) when si[k] = -1. */
  ghost predicate OneHot(si: seq<int>, SI: seq<int>)
  {
    |SI| == 2 * |si| && IsSign(si) &&
    forall k :: 0 <= k < |si| ==>
      SI[2 * k] == (if si[k] == 1 then 1 else 0) && SI[2 * k + 1] == (if si[k] == 1 then 0 else 1)
  }

  /** A sign vector has exactly one indicator matrix. */
  lemma OneHotUnique(si: seq<int>, SI1: seq<int>, SI2: seq<int>)
    requires OneHot(si, SI1) && OneHot(si, SI2)
    ensures SI1 == SI2
  {
    forall p | 0 <= p < |SI1|
      ensures SI1[p] == SI2[p]
    {
      var k := p / 2;
      assert 0 <= k < |si| && (p == 2 * k || p == 2 * k + 1);
      assert SI1[2 * k] == SI2[2 * k] && SI1[2 * k + 1] == SI2[2 * k + 1];
    }
  }

  // ---------------------------------------------------------------------
  // The split score

  /** Sum of B_ij over j < m with s_j == side. */
  function SideRow(B: seq<real>, n: nat, s: seq<int>, i: nat, side: int, m: nat): real
    requires |B| == n * n && |s| == n && i < n && m <= n
  {
    if m == 0 then 0.0
    else SideRow(B, n, s, i, side, m - 1) + (if s[m - 1] == side then At(B, n, i, m - 1) else 0.0)
  }

  /** Sum of B_ij over rows i < r and all columns j with s_i == s_j. */
  function SameSide(B: seq<real>, n: nat, s: seq<int>, r: nat): real
    requires |B| == n * n && |s| == n && r <= n
  {
    if r == 0 then 0.0 else SameSide(B, n, s, r - 1) + SideRow(B, n, s, r - 1, s[r - 1], n)
  }

  /** The split score before normalisation: the sum of B_ij over every pair
      of nodes on the same side. */
  function Score(B: seq<real>, n: nat, s: seq<int>): real
    requires |B| == n * n && |s| == n
  {
    SameSide(B, n, s, n)
  }

  /** Entry (i, c) of the product B * SI, summed over columns j < m
      (the source's temporary `SIt`). */
  function Projected(B: seq<real>, n: nat, SI: seq<int>, i: nat, c: nat, m: nat): real
    requires |B| == n * n && |SI| == 2 * n && i < n && c < 2 && m <= n
  {
    if m == 0 then 0.0
    else Projected(B, n, SI, i, c, m - 1) + At(B, n, i, m - 1) * SI[2 * (m - 1) + c] as real
  }

  /** Sum over flat indices k < m of SI[k] * (B * SI)[k / 2][k % 2]: the
      entries of SI and B * SI multiplied pairwise and added up. */
  function IndicatorSum(B: seq<real>, n: nat, SI: seq<int>, m: nat): real
    requires |B| == n * n && |SI| == 2 * n && m <= 2 * n
  {
    if m == 0 then 0.0
    else IndicatorSum(B, n, SI, m - 1) + IndicatorTerm(B, n, SI, m - 1)
  }

  /** Term k of the indicator sum: SI[k] * (B * SI)[k / 2][k % 2]. */
  function IndicatorTerm(B: seq<real>, n: nat, SI: seq<int>, k: nat): real
    requires |B| == n * n && |SI| == 2 * n && k < 2 * n
  {
    Weighted(SI[k], Projected(B, n, SI, k / 2, k % 2, n))
  }

  /** An integer entry times a real one. */
  function Weighted(s: int, x: real): real
  {
    s as real * x
  }

  lemma {:induction false} ProjectedOneHot(B: seq<real>, n: nat, si: seq<int>, SI: seq<int>, i: nat, m: nat)
    requires |B| == n * n && |si| == n && OneHot(si, SI) && i < n && m <= n
    ensures Projected(B, n, SI, i, 0, m) == SideRow(B, n, si, i, 1, m)
    ensures Projected(B, n, SI, i, 1, m) == SideRow(B, n, si, i, -1, m)
  {
    if m > 0 {
      ProjectedOneHot(B, n, si, SI, i, m - 1);
      assert si[m - 1] == 1 || si[m - 1] == -1;
    }
  }

  lemma {:induction false} IndicatorRows(B: seq<real>, n: nat, si: seq<int>, SI: seq<int>, r: nat)
    requires |B| == n * n && |si| == n && OneHot(si, SI) && r <= n
    ensures IndicatorSum(B, n, SI, 2 * r) == SameSide(B, n, si, r)
  {
    if r > 0 {
      var i := r - 1;
      IndicatorRows(B, n, si, SI, i);
      ProjectedOneHot(B, n, si, SI, i, n);
      assert (2 * i + 1) / 2 == i && (2 * i + 1) % 2 == 1;
      assert (2 * i) / 2 == i && (2 * i) % 2 == 0;
      assert IndicatorSum(B, n, SI, 2 * r) ==
        IndicatorSum(B, n, SI, 2 * i) + SI[2 * i] as real * Projected(B, n, SI, i, 0, n)
                                      + SI[2 * i + 1] as real * Projected(B, n, SI, i, 1, n);
      assert si[i] == 1 || si[i] == -1;
    }
  }

  /** What `deltaModularity` sums through the indicator matrix is the sum of
      B_ij over the pairs on the same side. */
  lemma IndicatorIsScore(B: seq<real>, n: nat, si: seq<int>, SI: seq<int>)
    requires |B| == n * n && |si| == n && OneHot(si, SI)
    ensures IndicatorSum(B, n, SI, 2 * n) == Score(B, n, si)
  {
    IndicatorRows(B, n, si, SI, n);
  }

  // ---------------------------------------------------------------------
  // The quadratic form and the gain of moving one node

  /** sum_{j < m} B_ij * s_i * s_j. */
  function QuadRow(B: seq<real>, n: nat, s: seq<int>, i: nat, m: nat): real
    requires |B| == n * n && |s| == n && i < n && m <= n
  {
    if m == 0 then 0.0
    else QuadRow(B, n, s, i, m - 1) + At(B, n, i, m - 1) * s[i] as real * s[m - 1] as real
  }

  /** sum_{i < r} sum_{j < n} B_ij * s_i * s_j. */
  function Quad(B: seq<real>, n: nat, s: seq<int>, r: nat): real
    requires |B| == n * n && |s| == n && r <= n
  {
    if r == 0 then 0.0 else Quad(B, n, s, r - 1) + QuadRow(B, n, s, r - 1, n)
  }

  /** sum_{i < r} sum_{j < n} B_ij: the sum of all entries when r = n. */
  function Total(B: seq<real>, n: nat, r: nat): real
    requires |B| == n * n && r <= n
  {
    if r == 0 then 0.0 else Total(B, n, r - 1) + RowSum(B, n, r - 1, n)
  }

  /** sum_{k < m, k != K} B_kK * s_k: column K of B against s, without the diagonal. */
  function ColumnExcl(B: seq<real>, n: nat, K: nat, s: seq<int>, m: nat): real
    requires |B| == n * n && |s| == n && K < n && m <= n
  {
    if m == 0 then 0.0
    else ColumnExcl(B, n, K, s, m - 1) + (if m - 1 != K then At(B, n, m - 1, K) * s[m - 1] as real else 0.0)
  }

  /** sum_{j < m, j != K} B_Kj * s_j: row K of B against s, without the diagonal. */
  function RowExcl(B: seq<real>, n: nat, K: nat, s: seq<int>, m: nat): real
    requires |B| == n * n && |s| == n && K < n && m <= n
  {
    if m == 0 then 0.0
    else RowExcl(B, n, K, s, m - 1) + (if m - 1 != K then At(B, n, K, m - 1) * s[m - 1] as real else 0.0)
  }

  /** The gain `deltaModularityMax` reports for moving node K:
      -4 * s_K * sum_{k != K} B_kK * s_k (it reads column K). */
  function Gain(B: seq<real>, n: nat, s: seq<int>, K: nat): real
    requires |B| == n * n && |s| == n && K < n
  {
    -4.0 * s[K] as real * ColumnExcl(B, n, K, s, n)
  }

  /** Node K moved to the other side, as `maxModularity` flips it. */
  function Flipped(s: seq<int>, K: nat): (r: seq<int>)
    requires K < |s|
    ensures |r| == |s| && r[K] != s[K]
    ensures forall k :: 0 <= k < |s| && k != K ==> r[k] == s[k]
    ensures IsSign(s) ==> IsSign(r) && r[K] == -s[K]
  {
    s[K := if s[K] == 1 then -1 else 1]
  }

  lemma {:induction false} QuadRowOther(B: seq<real>, n: nat, s: seq<int>, K: nat, i: nat, m: nat)
    requires |B| == n * n && |s| == n && IsSign(s) && K < n && i < n && i != K && m <= n
    ensures QuadRow(B, n, Flipped(s, K), i, m) - QuadRow(B, n, s, i, m)
         == (if K < m then -2.0 * s[K] as real * At(B, n, i, K) * s[i] as real else 0.0)
  {
    if m > 0 {
      QuadRowOther(B, n, s, K, i, m - 1);
      var t := Flipped(s, K);
      assert t[i] == s[i];
      if m - 1 == K {
        assert t[K] as real == -(s[K] as real);
      } else {
        assert t[m - 1] == s[m - 1];
      }
    }
  }

  lemma {:induction false} QuadRowSelf(B: seq<real>, n: nat, s: seq<int>, K: nat, m: nat)
    requires |B| == n * n && |s| == n && IsSign(s) && K < n && m <= n
    ensures QuadRow(B, n, Flipped(s, K), K, m) - QuadRow(B, n, s, K, m)
         == -2.0 * s[K] as real * RowExcl(B, n, K, s, m)
  {
    if m > 0 {
      QuadRowSelf(B, n, s, K, m - 1);
      var t := Flipped(s, K);
      var sk := s[K] as real;
      assert t[K] as real == -sk;
      if m - 1 == K {
        assert (-sk) * (-sk) == sk * sk;
      } else {
        assert t[m - 1] == s[m - 1];
        var b, sj := At(B, n, K, m - 1), s[m - 1] as real;
        assert b * (-sk) * sj - b * sk * sj == -2.0 * sk * (b * sj);
      }
    }
  }

  lemma {:induction false} QuadFlip(B: seq<real>, n: nat, s: seq<int>, K: nat, r: nat)
    requires |B| == n * n && |s| == n && IsSign(s) && K < n && r <= n
    ensures Quad(B, n, Flipped(s, K), r) - Quad(B, n, s, r)
         == -2.0 * s[K] as real * ColumnExcl(B, n, K, s, r)
            + (if K < r then -2.0 * s[K] as real * RowExcl(B, n, K, s, n) else 0.0)
  {
    if r > 0 {
      var i := r - 1;
      QuadFlip(B, n, s, K, i);
      if i == K {
        QuadRowSelf(B, n, s, K, n);
      } else {
        QuadRowOther(B, n, s, K, i, n);
        var sk, si, b := s[K] as real, s[i] as real, At(B, n, i, K);
        assert -2.0 * sk * b * si == -2.0 * sk * (b * si);
      }
    }
  }

  lemma {:induction false} SymmetricRowIsColumn(B: seq<real>, n: nat, K: nat, s: seq<int>, m: nat)
    requires |B| == n * n && |s| == n && K < n && m <= n && Symmetric(B, n)
    ensures RowExcl(B, n, K, s, m) == ColumnExcl(B, n, K, s, m)
  {
    if m > 0 {
      SymmetricRowIsColumn(B, n, K, s, m - 1);
      if m - 1 != K {
        var x, y, w := At(B, n, K, m - 1), At(B, n, m - 1, K), s[m - 1] as real;
        assert x == y;
        assert RowExcl(B, n, K, s, m) == RowExcl(B, n, K, s, m - 1) + x * w;
        assert ColumnExcl(B, n, K, s, m) == ColumnExcl(B, n, K, s, m - 1) + y * w;
      }
    }
  }

  /** For a symmetric B and a +1/-1 vector, the gain of node K is exactly the
      change of sum_ij B_ij s_i s_j when s_K is flipped. */
  lemma FlipGain(B: seq<real>, n: nat, s: seq<int>, K: nat)
    requires |B| == n * n && |s| == n && IsSign(s) && K < n && Symmetric(B, n)
    ensures Gain(B, n, s, K) == Quad(B, n, Flipped(s, K), n) - Quad(B, n, s, n)
  {
    QuadFlip(B, n, s, K, n);
    SymmetricRowIsColumn(B, n, K, s, n);
  }

  lemma {:induction false} QuadRowSides(B: seq<real>, n: nat, s: seq<int>, i: nat, m: nat)
    requires |B| == n * n && |s| == n && IsSign(s) && i < n && m <= n
    ensures QuadRow(B, n, s, i, m) == 2.0 * SideRow(B, n, s, i, s[i], m) - RowSum(B, n, i, m)
  {
    if m > 0 {
      QuadRowSides(B, n, s, i, m - 1);
      assert s[i] == 1 || s[i] == -1;
      assert s[m - 1] == 1 || s[m - 1] == -1;
    }
  }

  lemma {:induction false} QuadSides(B: seq<real>, n: nat, s: seq<int>, r: nat)
    requires |B| == n * n && |s| == n && IsSign(s) && r <= n
    ensures Quad(B, n, s, r) == 2.0 * SameSide(B, n, s, r) - Total(B, n, r)
  {
    if r > 0 {
      QuadSides(B, n, s, r - 1);
      QuadRowSides(B, n, s, r - 1, n);
    }
  }

  /** For a +1/-1 vector the quadratic form is twice the same-side score
      minus the sum of all entries. */
  lemma QuadIsScore(B: seq<real>, n: nat, s: seq<int>)
    requires |B| == n * n && |s| == n && IsSign(s)
    ensures Quad(B, n, s, n) == 2.0 * Score(B, n, s) - Total(B, n, n)
  {
    QuadSides(B, n, s, n);
  }

  /** The gain of moving node K is twice the change it makes to the same-side
      score; the change in `deltaModularity` is therefore NORM / 2 times the
      gain `deltaModularityMax` reports. */
  lemma GainIsScoreChange(B: seq<real>, n: nat, s: seq<int>, K: nat)
    requires |B| == n * n && |s| == n && IsSign(s) && K < n && Symmetric(B, n)
    ensures Gain(B, n, s, K) == 2.0 * (Score(B, n, Flipped(s, K)) - Score(B, n, s))
  {
    FlipGain(B, n, s, K);
    QuadIsScore(B, n, s);
    QuadIsScore(B, n, Flipped(s, K));
  }
}
