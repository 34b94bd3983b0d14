/**
 * What Gaussian elimination keeps: the current generator matrix and the
 * original one (with the logged column swaps applied) generate the same
 * row space over GF(2).  Two K x K ghost matrices witness this: the current
 * rows are R-combinations of the original rows, the original rows are
 * W-combinations of the current rows, and R W and W R are both the identity.
 */
module RowEquivalence {
  import opened Gf2
  import opened MatrixSpec

  ghost predicate Linked(P: seq<seq<bool>>, Q: seq<seq<bool>>, R: seq<seq<bool>>, W: seq<seq<bool>>,
                         K: nat, N: nat)
  {
    IsBMat(P, K, N) && IsBMat(Q, K, N) && IsBMat(R, K, K) && IsBMat(W, K, K) &&
    (forall k, j :: 0 <= k < K && 0 <= j < N ==> Q[k][j] == Dot(R[k], P, j, K)) &&
    (forall i, j :: 0 <= i < K && 0 <= j < N ==> P[i][j] == Dot(W[i], Q, j, K)) &&
    (forall k, j :: 0 <= k < K && 0 <= j < K ==> Dot(R[k], W, j, K) == (k == j)) &&
    (forall i, j :: 0 <= i < K && 0 <= j < K ==> Dot(W[i], R, j, K) == (i == j))
  }

  /**
   * Gc is row-equivalent over GF(2) to G0 with the column swaps of `ops`
   * applied, as witnessed by R and W.
   */
  ghost predicate Related(G0: Matrix, Gc: Matrix, ops: seq<Op>, R: seq<seq<bool>>, W: seq<seq<bool>>,
                          K: nat, N: nat)
  {
    IsMatrix(G0, K, N) && IsMatrix(Gc, K, N) && ColOpsIn(ops, N) &&
    Linked(PermCols(Par(G0), ops, N), Par(Gc), R, W, K, N)
  }

  /** At the start (no operations yet) G is related to itself through the identity. */
  lemma RelatedInitially(G: Matrix, K: nat, N: nat)
    requires IsMatrix(G, K, N)
    ensures Related(G, G, [], Identity(K), Identity(K), K, N)
  {
    var I := Identity(K);
    var P := PermCols(Par(G), [], N);
    assert P == Par(G);
    forall k, j | 0 <= k < K && 0 <= j < N
      ensures P[k][j] == Dot(I[k], P, j, K)
    {
      DotUnitCoefficients(I[k], k, P, j, K);
    }
    forall k, j | 0 <= k < K && 0 <= j < K
      ensures Dot(I[k], I, j, K) == (k == j)
    {
      DotUnitCoefficients(I[k], k, I, j, K);
    }
  }

  /** Swapping coefficients and rows together leaves a combination unchanged. */
  lemma DotSwapBoth(c: seq<bool>, M: seq<seq<bool>>, j: nat, n: nat, a: nat, b: nat)
    requires n <= |c| && n <= |M| && HasColumn(M, j, n) && a < n && b < n
    ensures Dot(SwapAt(c, a, b), SwapAt(M, a, b), j, n) == Dot(c, M, j, n)
  {
    if a == b {
      DotCongruent(SwapAt(c, a, b), SwapAt(M, a, b), j, c, M, j, n);
    } else {
      var c1 := c[a := c[b]];
      var c2 := c1[b := c[a]];
      var M1 := M[a := M[b]];
      var M2 := M1[b := M[a]];
      DotUpdateCoefficient(c, M, j, n, a, c[b]);
      DotUpdateCoefficient(c1, M, j, n, b, c[a]);
      DotUpdateRow(c2, M, j, n, a, M[b]);
      DotUpdateRow(c2, M1, j, n, b, M[a]);
      assert SwapAt(c, a, b) == c2 && SwapAt(M, a, b) == M2;
    }
  }

  /** Op. 0 keeps the link: R trades rows a and b, W trades columns a and b. */
  lemma LinkedSwapRows(P: seq<seq<bool>>, Q: seq<seq<bool>>, R: seq<seq<bool>>, W: seq<seq<bool>>,
                       K: nat, N: nat, a: nat, b: nat)
    requires Linked(P, Q, R, W, K, N) && a < K && b < K
    ensures Linked(P, SwapAt(Q, a, b), SwapAt(R, a, b),
                   seq(K, i requires 0 <= i < K => SwapAt(W[i], a, b)), K, N)
  {
    var Q', R' := SwapAt(Q, a, b), SwapAt(R, a, b);
    var W' := seq(K, i requires 0 <= i < K => SwapAt(W[i], a, b));
    forall i, j | 0 <= i < K && 0 <= j < N
      ensures P[i][j] == Dot(W'[i], Q', j, K)
    {
      DotSwapBoth(W[i], Q, j, K, a, b);
    }
    forall k, j | 0 <= k < K && 0 <= j < K
      ensures Dot(R'[k], W', j, K) == (k == j)
    {
      var sj := if j == a then b else if j == b then a else j;
      DotCongruent(R'[k], W, sj, R'[k], W', j, K);
    }
    forall i, j | 0 <= i < K && 0 <= j < K
      ensures Dot(W'[i], R', j, K) == (i == j)
    {
      DotSwapBoth(W[i], R, j, K, a, b);
    }
  }

  /** Op. 2 over GF(2), r1 != r2: R adds row r2 to row r1, W adds column r1 to column r2. */
  lemma LinkedAddRow(P: seq<seq<bool>>, Q: seq<seq<bool>>, R: seq<seq<bool>>, W: seq<seq<bool>>,
                     K: nat, N: nat, r1: nat, r2: nat, Q': seq<seq<bool>>)
    requires Linked(P, Q, R, W, K, N) && r1 < K && r2 < K && r1 != r2
    requires IsBMat(Q', K, N)
    requires forall j :: 0 <= j < N ==> Q'[r1][j] == (Q[r1][j] != Q[r2][j])
    requires forall k, j :: 0 <= k < K && k != r1 && 0 <= j < N ==> Q'[k][j] == Q[k][j]
    ensures Linked(P, Q', R[r1 := seq(K, j requires 0 <= j < K => R[r1][j] != R[r2][j])],
                   seq(K, i requires 0 <= i < K => W[i][r2 := W[i][r2] != W[i][r1]]), K, N)
  {
    var sum := seq(K, j requires 0 <= j < K => R[r1][j] != R[r2][j]);
    var R' := R[r1 := sum];
    var W' := seq(K, i requires 0 <= i < K => W[i][r2 := W[i][r2] != W[i][r1]]);
    var row := seq(N, j requires 0 <= j < N => Q[r1][j] != Q[r2][j]);
    assert Q' == Q[r1 := row] by {
      forall k | 0 <= k < K
        ensures Q'[k] == Q[r1 := row][k]
      {
        if k == r1 {
          assert forall j :: 0 <= j < N ==> Q'[k][j] == row[j];
        } else {
          assert forall j :: 0 <= j < N ==> Q'[k][j] == Q[k][j];
        }
      }
    }
    forall k, j | 0 <= k < K && 0 <= j < N
      ensures Q'[k][j] == Dot(R'[k], P, j, K)
    {
      if k == r1 {
        DotAddCoefficients(sum, R[r1], R[r2], P, j, K);
      }
    }
    forall i, j | 0 <= i < K && 0 <= j < N
      ensures P[i][j] == Dot(W'[i], Q', j, K)
    {
      DotUpdateCoefficient(W[i], Q', j, K, r2, W[i][r2] != W[i][r1]);
      DotUpdateRow(W[i], Q, j, K, r1, row);
    }
    forall k, j | 0 <= k < K && 0 <= j < K
      ensures Dot(R'[k], W', j, K) == (k == j)
    {
      if k == r1 {
        DotAddCoefficients(sum, R[r1], R[r2], W, j, K);
        DotAddCoefficients(sum, R[r1], R[r2], W, r1, K);
      }
      if j == r2 {
        DotAddColumns(R'[k], W', r2, W, r2, W, r1, K);
      } else {
        DotCongruent(R'[k], W', j, R'[k], W, j, K);
      }
    }
    forall i, j | 0 <= i < K && 0 <= j < K
      ensures Dot(W'[i], R', j, K) == (i == j)
    {
      DotUpdateRow(W'[i], R, j, K, r1, sum);
      DotUpdateCoefficient(W[i], R, j, K, r2, W[i][r2] != W[i][r1]);
    }
  }

  /** Permuting the columns of both P and Q the same way keeps the link. */
  lemma LinkedPermuteCols(P: seq<seq<bool>>, Q: seq<seq<bool>>, R: seq<seq<bool>>, W: seq<seq<bool>>,
                          K: nat, N: nat, P': seq<seq<bool>>, Q': seq<seq<bool>>, c1: nat, c2: nat)
    requires Linked(P, Q, R, W, K, N) && c1 < N && c2 < N
    requires IsBMat(P', K, N) && IsBMat(Q', K, N)
    requires forall i :: 0 <= i < K ==> P'[i] == SwapAt(P[i], c1, c2) && Q'[i] == SwapAt(Q[i], c1, c2)
    ensures Linked(P', Q', R, W, K, N)
  {
    forall k, j | 0 <= k < K && 0 <= j < N
      ensures Q'[k][j] == Dot(R[k], P', j, K) && P'[k][j] == Dot(W[k], Q', j, K)
    {
      var sj := if j == c1 then c2 else if j == c2 then c1 else j;
      DotCongruent(R[k], P, sj, R[k], P', j, K);
      DotCongruent(W[k], Q, sj, W[k], Q', j, K);
    }
  }

  /** Op. 3 keeps the relation once the swap is appended to the log. */
  lemma RelatedSwapCols(G0: Matrix, Gc: Matrix, ops: seq<Op>, R: seq<seq<bool>>, W: seq<seq<bool>>,
                        K: nat, N: nat, c1: nat, c2: nat)
    requires Related(G0, Gc, ops, R, W, K, N) && c1 < N && c2 < N
    ensures Related(G0, SwapCols(Gc, c1, c2), ops + [SwitchColsOp(c1, c2)], R, W, K, N)
  {
    var ops' := ops + [SwitchColsOp(c1, c2)];
    var Gc' := SwapCols(Gc, c1, c2);
    assert ColOpsIn(ops', N);
    var P, Q := PermCols(Par(G0), ops, N), Par(Gc);
    var P', Q' := PermCols(Par(G0), ops', N), Par(Gc');
    forall i | 0 <= i < K
      ensures P'[i] == SwapAt(P[i], c1, c2) && Q'[i] == SwapAt(Q[i], c1, c2)
    {
      ApplyColSwapsAppend(Par(G0)[i], ops, SwitchColsOp(c1, c2));
      assert Q'[i] == ParVec(SwapAt(Gc[i], c1, c2));
    }
    LinkedPermuteCols(P, Q, R, W, K, N, P', Q', c1, c2);
  }

  /** The parity view of the row-swap, row-add and column-swap functions. */
  lemma ParSwapRows(m: Matrix, K: nat, N: nat, a: nat, b: nat)
    requires IsMatrix(m, K, N) && a < K && b < K
    ensures Par(SwapRows(m, a, b)) == SwapAt(Par(m), a, b)
  {
  }

  lemma ParAddRowGf2(m: Matrix, K: nat, N: nat, r1: nat, r2: nat, s: int)
    requires IsMatrix(m, K, N) && r1 < K && r2 < K && Odd(s)
    ensures IsBMat(Par(AddRowTo(m, r1, r2, s, 2)), K, N)
    ensures forall j :: 0 <= j < N ==>
              Par(AddRowTo(m, r1, r2, s, 2))[r1][j] == (Par(m)[r1][j] != Par(m)[r2][j])
    ensures forall k :: 0 <= k < K && k != r1 ==> Par(AddRowTo(m, r1, r2, s, 2))[k] == Par(m)[k]
  {
    var m' := AddRowTo(m, r1, r2, s, 2);
    assert IsMatrix(m', K, N);
    forall j | 0 <= j < N
      ensures Par(m')[r1][j] == (Par(m)[r1][j] != Par(m)[r2][j])
    {
      assert m'[r1][j] == (m[r1][j] + m[r2][j] * s) % 2;
      OddSumProduct(m[r1][j], m[r2][j], s);
    }
  }

  /** (a + b s) mod 2 is a + b over GF(2) when s is odd. */
  lemma OddSumProduct(a: int, b: int, s: int)
    requires Odd(s)
    ensures Odd((a + b * s) % 2) == (Odd(a) != Odd(b))
  {
    var s' := s / 2;
    assert s == 2 * s' + 1;
    assert b * s == 2 * (b * s') + b;
  }

  lemma ParSwapCols(m: Matrix, K: nat, N: nat, c1: nat, c2: nat)
    requires IsMatrix(m, K, N) && c1 < N && c2 < N
    ensures IsMatrix(SwapCols(m, c1, c2), K, N)
  {
  }

  // ----- rank -----

  /** Coefficients e combine the K rows of M to the zero vector. */
  ghost predicate IsZeroCombination(e: seq<bool>, M: seq<seq<bool>>, K: nat, N: nat)
  {
    |e| == K && IsBMat(M, K, N) && forall j :: 0 <= j < N ==> !Dot(e, M, j, K)
  }

  /** The K rows of M are linearly independent over GF(2). */
  ghost predicate FullRank(M: seq<seq<bool>>, K: nat, N: nat)
  {
    forall e :: IsZeroCombination(e, M, K, N) ==> !NonZero(e, K)
  }

  ghost predicate IsZeroRow(m: Matrix, k: nat, N: nat)
    requires k < |m| && N <= |m[k]|
  {
    forall j :: 0 <= j < N ==> m[k][j] == 0
  }

  ghost predicate HasZeroRow(m: Matrix, K: nat, N: nat)
    requires IsMatrix(m, K, N)
  {
    exists k :: 0 <= k < K && IsZeroRow(m, k, N)
  }

  /**
   * Row reduction cannot create a zero row from independent rows: a zero
   * row of the current matrix is a non-trivial combination of the original
   * rows that vanishes.
   */
  lemma ZeroRowMeansDependent(G0: Matrix, Gc: Matrix, ops: seq<Op>, R: seq<seq<bool>>, W: seq<seq<bool>>,
                              K: nat, N: nat)
    requires Related(G0, Gc, ops, R, W, K, N) && HasZeroRow(Gc, K, N)
    ensures !FullRank(Par(G0), K, N)
  {
    var k :| 0 <= k < K && IsZeroRow(Gc, k, N);
    var P := PermCols(Par(G0), ops, N);
    var e := R[k];
    assert NonZero(e, K) by {
      if !NonZero(e, K) {
        DotZeroCoefficients(e, W, k, K);
        assert false;
      }
    }
    var z := seq(N, j requires 0 <= j < N => Dot(e, Par(G0), j, K));
    CombinationCommutesWithColSwaps(e, Par(G0), z, ops, K, N);
    var pz := ApplyColSwaps(z, ops);
    assert forall j :: 0 <= j < N ==> !pz[j] by {
      forall j | 0 <= j < N
        ensures !pz[j]
      {
        assert !Par(Gc)[k][j];
      }
    }
    assert true !in multiset(pz);
    assert forall j :: 0 <= j < N ==> !z[j];
    assert IsZeroCombination(e, Par(G0), K, N);
  }
}
