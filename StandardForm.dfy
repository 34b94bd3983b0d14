/**
 * Standard form [I_K | A] of a generator matrix, the check matrix
 * H = [-A^T | I_(N-K)] mod p built from it, and the syndrome test
 * H x mod 2 == 0 that decides membership in the code over GF(2).
 */
module StandardForm {
  import opened Gf2
  import opened MatrixSpec
  import opened RowEquivalence

  /** Sum of column c over the first n rows. */
  ghost function ColSum(m: Matrix, c: nat, n: nat): int
    requires n <= |m| && forall i :: 0 <= i < n ==> c < |m[i]|
  {
    if n == 0 then 0 else ColSum(m, c, n - 1) + m[n - 1][c]
  }

  /**
   * The standard-form test: every diagonal entry of the left K x K block is
   * 1 and no column of that block sums to more than 1.
   */
  ghost predicate IsStandardSpec(m: Matrix, K: nat)
    requires forall i :: 0 <= i < |m| ==> K <= |m[i]|
  {
    K <= |m| &&
    (forall i :: 0 <= i < K ==> m[i][i] == 1) &&
    (forall c :: 0 <= c < K ==> ColSum(m, c, K) <= 1)
  }

  /** The left K x K block is the identity. */
  ghost predicate IdentityBlock(m: Matrix, K: nat)
    requires K <= |m| && forall i :: 0 <= i < K ==> K <= |m[i]|
  {
    forall i, j :: 0 <= i < K && 0 <= j < K ==> m[i][j] == (if i == j then 1 else 0)
  }

  lemma {:induction false} ColSumOfBinary(m: Matrix, c: nat, n: nat, d: nat)
    requires n <= |m| && (forall i :: 0 <= i < n ==> c < |m[i]|) && Binary(m)
    requires d < n && m[d][c] == 1
    ensures ColSum(m, c, n) == 1 <==> forall i :: 0 <= i < n && i != d ==> m[i][c] == 0
    ensures ColSum(m, c, n) >= 1
  {
    if n - 1 > d {
      ColSumOfBinary(m, c, n - 1, d);
    } else {
      ColSumZero(m, c, n - 1);
    }
  }

  lemma {:induction false} ColSumZero(m: Matrix, c: nat, n: nat)
    requires n <= |m| && (forall i :: 0 <= i < n ==> c < |m[i]|) && Binary(m)
    ensures ColSum(m, c, n) >= 0
    ensures ColSum(m, c, n) == 0 <==> forall i :: 0 <= i < n ==> m[i][c] == 0
  {
    if n > 0 {
      ColSumZero(m, c, n - 1);
    }
  }

  /** For a 0/1 matrix the standard-form test accepts exactly an identity left block. */
  lemma StandardIffIdentityBlock(m: Matrix, K: nat, N: nat)
    requires IsMatrix(m, K, N) && K <= N && Binary(m)
    ensures IsStandardSpec(m, K) <==> IdentityBlock(m, K)
  {
    if IsStandardSpec(m, K) {
      forall i, j | 0 <= i < K && 0 <= j < K
        ensures m[i][j] == (if i == j then 1 else 0)
      {
        ColSumOfBinary(m, j, K, j);
      }
    }
    if IdentityBlock(m, K) {
      forall c | 0 <= c < K
        ensures ColSum(m, c, K) <= 1
      {
        ColSumOfBinary(m, c, K, c);
      }
    }
  }

  /**
   * The check matrix of a standard-form generator matrix [I_K | A]:
   * row r is (-A[., r])^T followed by the r-th unit vector, all mod p.
   */
  ghost function CheckMatrix(m: Matrix, K: nat, N: nat, p: int): (H: Matrix)
    requires IsMatrix(m, K, N) && K <= N && p > 0
    ensures IsMatrix(H, N - K, N)
  {
    seq(N - K, r requires 0 <= r < N - K =>
      seq(N, j requires 0 <= j < N => CheckEntry(m, K, N, p, r, j)))
  }

  /** Entry (r, j) of the check matrix. */
  ghost function CheckEntry(m: Matrix, K: nat, N: nat, p: int, r: nat, j: nat): int
    requires IsMatrix(m, K, N) && K + r < N && j < N && p > 0
  {
    if j < K then (-m[j][K + r]) % p else (if j - K == r then 1 else 0) % p
  }

  /** Integer inner product of the first n entries. */
  ghost function IntDot(h: seq<int>, x: seq<int>, n: nat): int
    requires n <= |h| && n <= |x|
  {
    if n == 0 then 0 else IntDot(h, x, n - 1) + h[n - 1] * x[n - 1]
  }

  /** GF(2) inner product of the first n entries. */
  ghost function Inner(a: seq<bool>, b: seq<bool>, n: nat): bool
    requires n <= |a| && n <= |b|
  {
    if n == 0 then false else Inner(a, b, n - 1) != (a[n - 1] && b[n - 1])
  }

  /** Every row of H has an even inner product with x: the syndrome H x mod 2 is zero. */
  ghost predicate SyndromeZero(H: Matrix, x: seq<int>, N: nat)
    requires N <= |x| && forall r :: 0 <= r < |H| ==> N <= |H[r]|
  {
    forall r :: 0 <= r < |H| ==> IntDot(H[r], x, N) % 2 == 0
  }

  /** v is a GF(2) combination of the K rows of M. */
  ghost predicate IsCombination(e: seq<bool>, v: seq<bool>, M: seq<seq<bool>>, K: nat, N: nat)
  {
    |e| == K && |v| == N && IsBMat(M, K, N) && forall j :: 0 <= j < N ==> v[j] == Dot(e, M, j, K)
  }

  ghost predicate InRowSpace(v: seq<bool>, M: seq<seq<bool>>, K: nat, N: nat)
  {
    exists e :: IsCombination(e, v, M, K, N)
  }

  // ----- parity arithmetic -----

  lemma OddStep(a: int, b: int, c: int)
    ensures Odd(a + b * c) == (Odd(a) != (Odd(b) && Odd(c)))
  {
    var qa, qb, qc := a / 2, b / 2, c / 2;
    var ra, rb, rc := a % 2, b % 2, c % 2;
    assert a == 2 * qa + ra && b == 2 * qb + rb && c == 2 * qc + rc;
    assert b * c == 2 * (2 * qb * qc + qb * rc + rb * qc) + rb * rc;
  }

  lemma OddNeg(a: int)
    ensures Odd((-a) % 2) == Odd(a)
  {
  }

  /** The parity of an integer inner product is the GF(2) inner product of the parities. */
  lemma {:induction false} OddIntDot(h: seq<int>, x: seq<int>, n: nat)
    requires n <= |h| && n <= |x|
    ensures Odd(IntDot(h, x, n)) == Inner(ParVec(h), ParVec(x), n)
  {
    if n > 0 {
      OddIntDot(h, x, n - 1);
      OddStep(IntDot(h, x, n - 1), h[n - 1], x[n - 1]);
    }
  }

  lemma {:induction false} InnerAsDot(a: seq<bool>, b: seq<bool>, Q: seq<seq<bool>>, col: nat, n: nat)
    requires n <= |a| && n <= |b| && HasColumn(Q, col, n)
    requires forall i :: 0 <= i < n ==> a[i] == Q[i][col]
    ensures Inner(a, b, n) == Dot(b, Q, col, n)
  {
    if n > 0 {
      InnerAsDot(a, b, Q, col, n - 1);
    }
  }

  /** Past position K a check row is a unit vector, so it adds exactly one coordinate. */
  lemma {:induction false} InnerUnitTail(a: seq<bool>, b: seq<bool>, K: nat, r: nat, n: nat)
    requires K <= n <= |a| && n <= |b|
    requires forall j :: K <= j < n ==> a[j] == (j - K == r)
    ensures Inner(a, b, n) == (Inner(a, b, K) != (K + r < n && b[K + r]))
  {
    if n > K {
      InnerUnitTail(a, b, K, r, n - 1);
    }
  }

  /** Over GF(2) the first K entries of check row r are column K + r of G (as -a ≡ a mod 2). */
  lemma CheckRowParities(Gc: Matrix, K: nat, N: nat, r: nat)
    requires IsMatrix(Gc, K, N) && K <= N && r < N - K
    ensures forall j :: 0 <= j < K ==> ParVec(CheckMatrix(Gc, K, N, 2)[r])[j] == Par(Gc)[j][K + r]
  {
    var h := CheckMatrix(Gc, K, N, 2)[r];
    forall j | 0 <= j < K
      ensures ParVec(h)[j] == Par(Gc)[j][K + r]
    {
      OddNeg(Gc[j][K + r]);
    }
  }

  /** The r-th check bit of y is y[K+r] plus the combination of y[..K] along column K+r of Q. */
  lemma CheckBit(Gc: Matrix, K: nat, N: nat, y: seq<int>, r: nat)
    requires IsMatrix(Gc, K, N) && K <= N && |y| == N && r < N - K
    ensures Odd(IntDot(CheckMatrix(Gc, K, N, 2)[r], y, N)) ==
            (Dot(ParVec(y), Par(Gc), K + r, K) != ParVec(y)[K + r])
  {
    var h := CheckMatrix(Gc, K, N, 2)[r];
    OddIntDot(h, y, N);
    CheckRowParities(Gc, K, N, r);
    InnerAsDot(ParVec(h), ParVec(y), Par(Gc), K + r, K);
    InnerUnitTail(ParVec(h), ParVec(y), K, r, N);
  }

  /** Check r holds for the parity word py: coordinate K+r is the combination of py[..K] along column K+r. */
  ghost predicate CheckHolds(py: seq<bool>, Q: seq<seq<bool>>, K: nat, r: nat)
    requires K + r < |py| && HasColumn(Q, K + r, K)
  {
    Dot(py, Q, K + r, K) == py[K + r]
  }

  /** The syndrome is zero exactly when every check holds on the parities. */
  lemma SyndromeAsChecks(Gc: Matrix, K: nat, N: nat, y: seq<int>)
    requires IsMatrix(Gc, K, N) && K <= N && |y| == N
    ensures SyndromeZero(CheckMatrix(Gc, K, N, 2), y, N) <==>
            forall r :: 0 <= r < N - K ==> CheckHolds(ParVec(y), Par(Gc), K, r)
  {
    var H := CheckMatrix(Gc, K, N, 2);
    forall r | 0 <= r < N - K
      ensures (IntDot(H[r], y, N) % 2 == 0) == CheckHolds(ParVec(y), Par(Gc), K, r)
    {
      CheckBit(Gc, K, N, y, r);
    }
  }

  /** With an identity left block, the checks hold exactly on the row space. */
  lemma ChecksIffRowSpace(Q: seq<seq<bool>>, K: nat, N: nat, py: seq<bool>)
    requires IsBMat(Q, K, N) && K <= N && |py| == N
    requires forall i, j :: 0 <= i < K && 0 <= j < K ==> Q[i][j] == (i == j)
    ensures (forall r :: 0 <= r < N - K ==> CheckHolds(py, Q, K, r)) <==> InRowSpace(py, Q, K, N)
  {
    forall c: seq<bool>, j | K <= |c| && 0 <= j < K
      ensures Dot(c, Q, j, K) == c[j]
    {
      DotIdentityColumn(c, Q, j, K);
    }
    if InRowSpace(py, Q, K, N) {
      var e :| IsCombination(e, py, Q, K, N);
      forall r | 0 <= r < N - K
        ensures CheckHolds(py, Q, K, r)
      {
        DotCongruent(py, Q, K + r, e, Q, K + r, K);
      }
    }
    if forall r :: 0 <= r < N - K ==> CheckHolds(py, Q, K, r) {
      var e := py[..K];
      forall j | 0 <= j < N
        ensures py[j] == Dot(e, Q, j, K)
      {
        DotCongruent(py, Q, j, e, Q, j, K);
        if j >= K {
          assert CheckHolds(py, Q, K, j - K);
        }
      }
      assert IsCombination(e, py, Q, K, N);
    }
  }

  /**
   * For a 0/1 matrix in standard form, a vector passes the syndrome test
   * exactly when its parities are a GF(2) combination of the rows.
   */
  lemma StandardCodeMembership(Gc: Matrix, K: nat, N: nat, y: seq<int>)
    requires IsMatrix(Gc, K, N) && K <= N && Binary(Gc) && IsStandardSpec(Gc, K) && |y| == N
    ensures SyndromeZero(CheckMatrix(Gc, K, N, 2), y, N) <==> InRowSpace(ParVec(y), Par(Gc), K, N)
  {
    StandardIffIdentityBlock(Gc, K, N);
    assert forall i, j :: 0 <= i < K && 0 <= j < K ==> Par(Gc)[i][j] == (i == j);
    SyndromeAsChecks(Gc, K, N, y);
    ChecksIffRowSpace(Par(Gc), K, N, ParVec(y));
  }

  /** Taking parities commutes with rearranging coordinates. */
  lemma {:induction false} ParVecColSwaps(x: seq<int>, ops: seq<Op>)
    requires ColOpsIn(ops, |x|)
    ensures ParVec(ApplyColSwaps(x, ops)) == ApplyColSwaps(ParVec(x), ops)
    decreases |ops|
  {
    if |ops| > 0 {
      ParVecColSwaps(x, ops[..|ops| - 1]);
    }
  }

  /**
   * Row equivalence carries the row space across: a vector is a combination
   * of the original rows exactly when its rearrangement is a combination of
   * the current rows.
   */
  lemma RowSpaceTransfer(G0: Matrix, Gc: Matrix, ops: seq<Op>, R: seq<seq<bool>>, W: seq<seq<bool>>,
                         K: nat, N: nat, v: seq<bool>)
    requires Related(G0, Gc, ops, R, W, K, N) && |v| == N
    ensures InRowSpace(ApplyColSwaps(v, ops), Par(Gc), K, N) <==> InRowSpace(v, Par(G0), K, N)
  {
    var P, Q := PermCols(Par(G0), ops, N), Par(Gc);
    var pv := ApplyColSwaps(v, ops);
    if InRowSpace(v, Par(G0), K, N) {
      var e :| IsCombination(e, v, Par(G0), K, N);
      CombinationCommutesWithColSwaps(e, Par(G0), v, ops, K, N);
      var ew := seq(K, k requires 0 <= k < K => Dot(e, W, k, K));
      forall j | 0 <= j < N
        ensures pv[j] == Dot(ew, Q, j, K)
      {
        DotAssociative(e, W, Q, P, ew, j, K, K);
      }
      assert IsCombination(ew, pv, Q, K, N);
    }
    if InRowSpace(pv, Q, K, N) {
      var c :| IsCombination(c, pv, Q, K, N);
      var cr := seq(K, k requires 0 <= k < K => Dot(c, R, k, K));
      forall j | 0 <= j < N
        ensures pv[j] == Dot(cr, P, j, K)
      {
        DotAssociative(c, R, P, Q, cr, j, K, K);
      }
      var z := seq(N, j requires 0 <= j < N => Dot(cr, Par(G0), j, K));
      CombinationCommutesWithColSwaps(cr, Par(G0), z, ops, K, N);
      assert ApplyColSwaps(z, ops) == pv;
      ApplyColSwapsInjective(z, v, ops);
      assert IsCombination(cr, v, Par(G0), K, N);
    }
  }

  /** A combination that vanishes on G0 vanishes on G0 with its columns rearranged. */
  lemma ZeroCombinationPermuted(e: seq<bool>, G0: Matrix, ops: seq<Op>, K: nat, N: nat)
    requires IsZeroCombination(e, Par(G0), K, N) && ColOpsIn(ops, N)
    ensures forall j :: 0 <= j < N ==> !Dot(e, PermCols(Par(G0), ops, N), j, K)
  {
    var z := seq(N, j requires 0 <= j < N => Dot(e, Par(G0), j, K));
    CombinationCommutesWithColSwaps(e, Par(G0), z, ops, K, N);
    assert true !in multiset(z);
    assert true !in multiset(ApplyColSwaps(z, ops));
  }

  /** When W R is the identity, only the zero coefficients map to zero through W. */
  lemma LeftInverseKernel(e: seq<bool>, W: seq<seq<bool>>, R: seq<seq<bool>>, K: nat)
    requires |e| == K && IsBMat(W, K, K) && IsBMat(R, K, K)
    requires forall i, j :: 0 <= i < K && 0 <= j < K ==> Dot(W[i], R, j, K) == (i == j)
    requires forall k :: 0 <= k < K ==> !Dot(e, W, k, K)
    ensures !NonZero(e, K)
  {
    var ew := seq(K, k requires 0 <= k < K => Dot(e, W, k, K));
    var I := seq(K, i requires 0 <= i < K => seq(K, j requires 0 <= j < K => Dot(W[i], R, j, K)));
    forall k | 0 <= k < K
      ensures !e[k]
    {
      DotAssociative(e, W, R, I, ew, k, K, K);
      DotIdentityColumn(e, I, k, K);
      DotZeroCoefficients(ew, R, k, K);
    }
  }

  /**
   * A standard-form matrix row-equivalent to G0 proves that G0 has full rank
   * over GF(2): a combination of G0's rows that vanishes maps, through W, to
   * a combination of the identity block's rows, so its image under W is
   * zero, and R brings that image back to the combination itself.
   */
  lemma StandardMeansFullRank(G0: Matrix, Gc: Matrix, ops: seq<Op>, R: seq<seq<bool>>, W: seq<seq<bool>>,
                              K: nat, N: nat)
    requires Related(G0, Gc, ops, R, W, K, N) && K <= N && Binary(Gc) && IsStandardSpec(Gc, K)
    ensures FullRank(Par(G0), K, N)
  {
    var P, Q := PermCols(Par(G0), ops, N), Par(Gc);
    StandardParIdentity(Gc, K, N);
    forall e | IsZeroCombination(e, Par(G0), K, N)
      ensures !NonZero(e, K)
    {
      ZeroCombinationPermuted(e, G0, ops, K, N);
      LinkedKernel(e, P, Q, R, W, K, N);
    }
  }

  /** The parities of a binary standard-form matrix open with the identity block. */
  lemma StandardParIdentity(m: Matrix, K: nat, N: nat)
    requires IsMatrix(m, K, N) && K <= N && Binary(m) && IsStandardSpec(m, K)
    ensures forall i, j :: 0 <= i < K && 0 <= j < K ==> Par(m)[i][j] == (i == j)
  {
    StandardIffIdentityBlock(m, K, N);
  }

  /** Linked to a matrix Q with an identity block, P has only the trivial vanishing combination. */
  lemma LinkedKernel(e: seq<bool>, P: seq<seq<bool>>, Q: seq<seq<bool>>, R: seq<seq<bool>>, W: seq<seq<bool>>,
                     K: nat, N: nat)
    requires Linked(P, Q, R, W, K, N) && K <= N && |e| == K
    requires forall i, j :: 0 <= i < K && 0 <= j < K ==> Q[i][j] == (i == j)
    requires forall j :: 0 <= j < N ==> !Dot(e, P, j, K)
    ensures !NonZero(e, K)
  {
    var ew := seq(K, k requires 0 <= k < K => Dot(e, W, k, K));
    forall j | 0 <= j < K
      ensures !Dot(e, W, j, K)
    {
      DotAssociative(e, W, Q, P, ew, j, K, K);
      DotIdentityColumn(ew, Q, j, K);
    }
    LeftInverseKernel(e, W, R, K);
  }

  /**
   * After row reduction to standard form, the check matrix accepts a word
   * (rearranged by the logged column swaps) exactly when the word is a
   * codeword of the original generator matrix over GF(2).
   */
  lemma CodeMembership(G0: Matrix, Gc: Matrix, ops: seq<Op>, R: seq<seq<bool>>, W: seq<seq<bool>>,
                       K: nat, N: nat, x: seq<int>)
    requires Related(G0, Gc, ops, R, W, K, N) && K <= N && Binary(Gc) && IsStandardSpec(Gc, K)
    requires |x| == N
    ensures SyndromeZero(CheckMatrix(Gc, K, N, 2), ApplyColSwaps(x, ops), N) <==>
            InRowSpace(ParVec(x), Par(G0), K, N)
  {
    StandardCodeMembership(Gc, K, N, ApplyColSwaps(x, ops));
    ParVecColSwaps(x, ops);
    RowSpaceTransfer(G0, Gc, ops, R, W, K, N, ParVec(x));
  }

  /**
   * Testing the word without the rearrangement is wrong: [0 1] is the only
   * row of G0 = [[0, 1]], elimination swaps the two columns to reach
   * Gc = [[1, 0]], and the check matrix [[0, 1]] then rejects [0 1].
   */
  lemma UnpermutedSyndromeRejectsCodeword()
    ensures Related([[0, 1]], [[1, 0]], [SwitchColsOp(0, 1)], [[true]], [[true]], 1, 2)
    ensures Binary([[1, 0]]) && IsStandardSpec([[1, 0]], 1)
    ensures InRowSpace(ParVec([0, 1]), Par([[0, 1]]), 1, 2)
    ensures !SyndromeZero(CheckMatrix([[1, 0]], 1, 2, 2), [0, 1], 2)
    ensures SyndromeZero(CheckMatrix([[1, 0]], 1, 2, 2), ApplyColSwaps([0, 1], [SwitchColsOp(0, 1)]), 2)
  {
    ExampleRelated();
    ExampleStandard();
    ExampleCodeword();
    ExampleSyndromes();
  }

  lemma ExampleStandard()
    ensures Binary([[1, 0]]) && IsStandardSpec([[1, 0]], 1)
  {
    assert ColSum([[1, 0]], 0, 1) == 1;
  }

  lemma ExampleCodeword()
    ensures InRowSpace(ParVec([0, 1]), Par([[0, 1]]), 1, 2)
  {
    assert ParVec([0, 1]) == [false, true];
    assert Par([[0, 1]]) == [[false, true]];
    assert Dot([true], [[false, true]], 0, 1) == false;
    assert Dot([true], [[false, true]], 1, 1) == true;
    assert IsCombination([true], ParVec([0, 1]), Par([[0, 1]]), 1, 2);
  }

  lemma ExampleRelated()
    ensures Related([[0, 1]], [[1, 0]], [SwitchColsOp(0, 1)], [[true]], [[true]], 1, 2)
  {
    var G0: Matrix, Gc: Matrix := [[0, 1]], [[1, 0]];
    var ops := [SwitchColsOp(0, 1)];
    assert Par(G0)[0] == [false, true];
    assert ApplyColSwaps(Par(G0)[0], ops) == [true, false] by {
      assert ApplyColSwaps(Par(G0)[0], ops[..0]) == [false, true];
    }
    var P := PermCols(Par(G0), ops, 2);
    assert Par(Gc)[0] == [true, false];
    assert P == Par(Gc);
    RelatedInitially(Gc, 1, 2);
    assert Identity(1)[0][0];
    assert Identity(1)[0] == [true];
    assert Identity(1) == [[true]];
  }

  lemma ExampleSyndromes()
    ensures !SyndromeZero(CheckMatrix([[1, 0]], 1, 2, 2), [0, 1], 2)
    ensures SyndromeZero(CheckMatrix([[1, 0]], 1, 2, 2), ApplyColSwaps([0, 1], [SwitchColsOp(0, 1)]), 2)
  {
    ExampleCheckMatrix();
    var H := [[0, 1]];
    assert IntDot(H[0], [0, 1], 1) == 0;
    assert IntDot(H[0], [0, 1], 2) == 1;
    var ops := [SwitchColsOp(0, 1)];
    assert ApplyColSwaps([0, 1], ops) == [1, 0] by {
      assert ApplyColSwaps([0, 1], ops[..0]) == [0, 1];
    }
    assert IntDot(H[0], [1, 0], 1) == 0;
    assert IntDot(H[0], [1, 0], 2) == 0;
  }

  /** The check matrix of [1 0] over GF(2) is [0 1]. */
  lemma ExampleCheckMatrix()
    ensures CheckMatrix([[1, 0]], 1, 2, 2) == [[0, 1]]
  {
    var H := CheckMatrix([[1, 0]], 1, 2, 2);
    assert H[0][0] == CheckEntry([[1, 0]], 1, 2, 2, 0, 0) == 0;
    assert H[0][1] == CheckEntry([[1, 0]], 1, 2, 2, 0, 1) == 1;
    assert H[0] == [0, 1];
  }
}
