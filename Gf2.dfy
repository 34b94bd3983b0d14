/**
 * Linear algebra over GF(2) on boolean vectors and matrices: a bit is a
 * `bool`, addition is `!=` (exclusive or) and multiplication is `&&`.
 * `Dot(c, M, j, n)` is the j-th entry of the combination of the first n
 * rows of M with coefficients c, i.e. (c^T M)[j] over GF(2).
 */
module Gf2 {

  /** Rows 0..n-1 of M all have an entry in column j. */
  ghost predicate HasColumn(M: seq<seq<bool>>, j: nat, n: nat)
  {
    n <= |M| && forall i :: 0 <= i < n ==> j < |M[i]|
  }

  ghost predicate IsBMat(M: seq<seq<bool>>, rows: nat, cols: nat)
  {
    |M| == rows && forall i :: 0 <= i < rows ==> |M[i]| == cols
  }

  /** XOR over i < n of (c[i] && M[i][j]). */
  ghost function Dot(c: seq<bool>, M: seq<seq<bool>>, j: nat, n: nat): bool
    requires n <= |c| && HasColumn(M, j, n)
  {
    if n == 0 then false else Dot(c, M, j, n - 1) != (c[n - 1] && M[n - 1][j])
  }

  /** The n x n identity matrix. */
  ghost function Identity(n: nat): (I: seq<seq<bool>>)
    ensures IsBMat(I, n, n)
    ensures forall i, j :: 0 <= i < n && 0 <= j < n ==> I[i][j] == (i == j)
  {
    seq(n, i => seq(n, j => i == j))
  }

  /** A vector with at least one true entry among its first n. */
  ghost predicate NonZero(c: seq<bool>, n: nat)
    requires n <= |c|
  {
    exists i :: 0 <= i < n && c[i]
  }

  /** Only the coefficients and the column entries of the first n rows matter. */
  lemma {:induction false} DotCongruent(c: seq<bool>, M: seq<seq<bool>>, j: nat,
                                         c': seq<bool>, M': seq<seq<bool>>, j': nat, n: nat)
    requires n <= |c| && HasColumn(M, j, n) && n <= |c'| && HasColumn(M', j', n)
    requires forall i :: 0 <= i < n ==> c[i] == c'[i] && M[i][j] == M'[i][j']
    ensures Dot(c, M, j, n) == Dot(c', M', j', n)
  {
    if n > 0 {
      DotCongruent(c, M, j, c', M', j', n - 1);
    }
  }

  /** The all-false combination is zero. */
  lemma {:induction false} DotZeroCoefficients(c: seq<bool>, M: seq<seq<bool>>, j: nat, n: nat)
    requires n <= |c| && HasColumn(M, j, n)
    requires !NonZero(c, n)
    ensures !Dot(c, M, j, n)
  {
    if n > 0 {
      DotZeroCoefficients(c, M, j, n - 1);
    }
  }

  /** Linearity in the coefficients: (a + b)^T M == a^T M + b^T M. */
  lemma {:induction false} DotAddCoefficients(x: seq<bool>, a: seq<bool>, b: seq<bool>,
                                               M: seq<seq<bool>>, j: nat, n: nat)
    requires n <= |x| && n <= |a| && n <= |b| && HasColumn(M, j, n)
    requires forall i :: 0 <= i < n ==> x[i] == (a[i] != b[i])
    ensures Dot(x, M, j, n) == (Dot(a, M, j, n) != Dot(b, M, j, n))
  {
    if n > 0 {
      DotAddCoefficients(x, a, b, M, j, n - 1);
    }
  }

  /** Scaling the coefficients by a bit s scales the combination. */
  lemma {:induction false} DotScaleCoefficients(x: seq<bool>, s: bool, a: seq<bool>,
                                                 M: seq<seq<bool>>, j: nat, n: nat)
    requires n <= |x| && n <= |a| && HasColumn(M, j, n)
    requires forall i :: 0 <= i < n ==> x[i] == (s && a[i])
    ensures Dot(x, M, j, n) == (s && Dot(a, M, j, n))
  {
    if n > 0 {
      DotScaleCoefficients(x, s, a, M, j, n - 1);
    }
  }

  /** Linearity in the matrix column: c^T (M + M')[j] == c^T M[j] + c^T M'[j']. */
  lemma {:induction false} DotAddColumns(c: seq<bool>, X: seq<seq<bool>>, jx: nat,
                                          M: seq<seq<bool>>, j: nat,
                                          M': seq<seq<bool>>, j': nat, n: nat)
    requires n <= |c| && HasColumn(X, jx, n) && HasColumn(M, j, n) && HasColumn(M', j', n)
    requires forall i :: 0 <= i < n ==> X[i][jx] == (M[i][j] != M'[i][j'])
    ensures Dot(c, X, jx, n) == (Dot(c, M, j, n) != Dot(c, M', j', n))
  {
    if n > 0 {
      DotAddColumns(c, X, jx, M, j, M', j', n - 1);
    }
  }

  /** Changing one coefficient changes the combination by that row's contribution. */
  lemma {:induction false} DotUpdateCoefficient(c: seq<bool>, M: seq<seq<bool>>, j: nat, n: nat,
                                                 k: nat, v: bool)
    requires n <= |c| && HasColumn(M, j, n) && k < n
    ensures Dot(c[k := v], M, j, n) == (Dot(c, M, j, n) != ((c[k] != v) && M[k][j]))
  {
    if k < n - 1 {
      DotUpdateCoefficient(c, M, j, n - 1, k, v);
    } else {
      DotCongruent(c[k := v], M, j, c, M, j, n - 1);
    }
  }

  /** Changing one row changes the combination by the change of that row, scaled. */
  lemma {:induction false} DotUpdateRow(c: seq<bool>, M: seq<seq<bool>>, j: nat, n: nat,
                                         k: nat, row: seq<bool>)
    requires n <= |c| && HasColumn(M, j, n) && k < n && j < |row|
    ensures Dot(c, M[k := row], j, n) == (Dot(c, M, j, n) != (c[k] && (M[k][j] != row[j])))
  {
    if k < n - 1 {
      DotUpdateRow(c, M, j, n - 1, k, row);
    } else {
      DotCongruent(c, M[k := row], j, c, M, j, n - 1);
    }
  }

  /** Combining the rows of the identity picks out one coefficient. */
  lemma {:induction false} DotIdentityColumn(c: seq<bool>, M: seq<seq<bool>>, j: nat, n: nat)
    requires n <= |c| && HasColumn(M, j, n)
    requires forall i :: 0 <= i < n ==> M[i][j] == (i == j)
    ensures Dot(c, M, j, n) == (j < n && c[j])
  {
    if n > 0 {
      DotIdentityColumn(c, M, j, n - 1);
    }
  }

  /** The rows of the identity combine to the unit vector: (e_k)^T M == M[k]. */
  lemma {:induction false} DotUnitCoefficients(c: seq<bool>, k: nat, M: seq<seq<bool>>, j: nat, n: nat)
    requires n <= |c| && HasColumn(M, j, n) && k < n
    requires forall i :: 0 <= i < n ==> c[i] == (i == k)
    ensures Dot(c, M, j, n) == M[k][j]
  {
    if n - 1 > k {
      DotUnitCoefficients(c, k, M, j, n - 1);
    } else {
      DotZeroCoefficients(c, M, j, n - 1);
    }
  }

  /**
   * Associativity: c^T (W M) == (c^T W) M, where PM holds the rows of W M
   * and CW holds the coefficients c^T W.
   */
  lemma {:induction false} DotAssociative(c: seq<bool>, W: seq<seq<bool>>, M: seq<seq<bool>>,
                                           PM: seq<seq<bool>>, CW: seq<bool>, j: nat, n: nat, m: nat)
    requires n <= |c| && n <= |W| && n <= |PM| && m <= |CW|
    requires forall i :: 0 <= i < n ==> m <= |W[i]| && j < |PM[i]|
    requires HasColumn(M, j, m)
    requires forall i :: 0 <= i < n ==> PM[i][j] == Dot(W[i], M, j, m)
    requires forall k :: 0 <= k < m ==> HasColumn(W, k, n) && CW[k] == Dot(c, W, k, n)
    ensures Dot(c, PM, j, n) == Dot(CW, M, j, m)
    decreases n
  {
    if n == 0 {
      DotZeroCoefficients(CW, M, j, m);
    } else {
      var CW' := seq(m, k requires 0 <= k < m => Dot(c, W, k, n - 1));
      DotAssociative(c, W, M, PM, CW', j, n - 1, m);
      var scaled := seq(m, k requires 0 <= k < m => c[n - 1] && W[n - 1][k]);
      DotScaleCoefficients(scaled, c[n - 1], W[n - 1], M, j, m);
      DotAddCoefficients(CW, CW', scaled, M, j, m);
    }
  }
}
