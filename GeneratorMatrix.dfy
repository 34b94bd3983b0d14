/**
 * The GF(p) generator-matrix engine: a K x N integer matrix held in a
 * mutable array, five logged elementary operations, reduction to standard
 * form over GF(2), the check matrix and the syndrome membership test.
 */
module GeneratorMatrix {
  import opened Wrappers
  import opened Gf2
  import opened MatrixSpec
  import opened RowEquivalence
  import opened StandardForm

  // ----- Python integer division -----

  /** Python's a % m: the remainder takes the sign of the divisor. */
  function PyMod(a: int, m: int): (r: int)
    requires m != 0
    ensures m > 0 ==> 0 <= r < m
    ensures m < 0 ==> m < r <= 0
  {
    if m < 0 && a % m != 0 then a % m + m else a % m
  }

  /** Python's a // m: the quotient rounded towards minus infinity. */
  function PyDiv(a: int, m: int): (q: int)
    requires m != 0
    ensures m * q + PyMod(a, m) == a
  {
    if m < 0 && a % m != 0 then a / m - 1 else a / m
  }

  // ----- egcd / modinv -----

  function Abs(x: int): nat
  {
    if x < 0 then -x else x
  }

  /** The extended Euclidean algorithm: (g, x, y) with a x + b y == g. */
  function Egcd(a: int, b: int): (int, int, int)
    decreases Abs(a)
  {
    if a == 0 then (b, 0, 1)
    else
      var (g, y, x) := Egcd(PyMod(b, a), a);
      (g, x - PyDiv(b, a) * y, y)
  }

  /** d divides n, with k as the witness. */
  ghost predicate DividesBy(d: int, n: int, k: int)
  {
    d * k == n
  }

  ghost predicate Divides(d: int, n: int)
  {
    exists k :: DividesBy(d, n, k)
  }

  lemma MulSub(a: int, x: int, z: int)
    ensures a * (x - z) == a * x - a * z
  {
  }

  lemma MulAddRight(u: int, v: int, y: int)
    ensures (u + v) * y == u * y + v * y
  {
  }

  lemma MulAssoc(a: int, q: int, y: int)
    ensures a * (q * y) == (a * q) * y
  {
  }

  /** Bezout's identity for the coefficients egcd returns. */
  lemma {:induction false} EgcdBezout(a: int, b: int)
    ensures a * Egcd(a, b).1 + b * Egcd(a, b).2 == Egcd(a, b).0
    decreases Abs(a)
  {
    if a != 0 {
      var r, q := PyMod(b, a), PyDiv(b, a);
      EgcdBezout(r, a);
      var e := Egcd(r, a);
      var g, y, x := e.0, e.1, e.2;
      assert Egcd(a, b) == (g, x - q * y, y);
      assert b == a * q + r;
      MulSub(a, x, q * y);
      MulAssoc(a, q, y);
      MulAddRight(a * q, r, y);
    }
  }

  /** For non-negative inputs g is a non-negative common divisor. */
  lemma {:induction false} EgcdDivides(a: int, b: int)
    requires a >= 0 && b >= 0
    ensures Egcd(a, b).0 >= 0 && Divides(Egcd(a, b).0, a) && Divides(Egcd(a, b).0, b)
    decreases a
  {
    var g := Egcd(a, b).0;
    if a == 0 {
      assert DividesBy(g, a, 0) && DividesBy(g, b, 1);
    } else {
      var r, q := PyMod(b, a), PyDiv(b, a);
      EgcdDivides(r, a);
      assert g == Egcd(r, a).0;
      var kr :| DividesBy(g, r, kr);
      var ka :| DividesBy(g, a, ka);
      assert b == a * q + r;
      MulAddLeft(g, ka * q, kr);
      MulAssoc(g, ka, q);
      assert DividesBy(g, b, ka * q + kr);
    }
  }

  lemma MulAddLeft(a: int, u: int, v: int)
    ensures a * (u + v) == a * u + a * v
  {
  }

  /** Every common divisor of a and b divides g, so g is their greatest common divisor. */
  lemma EgcdGreatest(a: int, b: int, d: int)
    requires Divides(d, a) && Divides(d, b)
    ensures Divides(d, Egcd(a, b).0)
  {
    EgcdBezout(a, b);
    var e := Egcd(a, b);
    var ka :| DividesBy(d, a, ka);
    var kb :| DividesBy(d, b, kb);
    MulAddLeft(d, ka * e.1, kb * e.2);
    MulAssoc(d, ka, e.1);
    MulAssoc(d, kb, e.2);
    assert DividesBy(d, e.0, ka * e.1 + kb * e.2);
  }

  datatype ModInvError = NoInverse | DivisionByZero

  /**
   * The inverse of a modulo m: NoInverse when egcd's g is not 1, the
   * ZeroDivisionError of x % 0 when m is 0, otherwise x mod m.
   */
  function ModInv(a: int, m: int): Result<int, ModInvError>
  {
    var e := Egcd(a, m);
    if e.0 != 1 then Err(NoInverse)
    else if m == 0 then Err(DivisionByZero)
    else Ok(PyMod(e.1, m))
  }

  lemma {:induction false} MulAtLeast(m: int, k: int)
    requires k != 0
    ensures Abs(m * k) >= Abs(m)
    decreases Abs(k), if k < 0 then 1 else 0
  {
    if k > 1 {
      MulAddLeft(m, 1, k - 1);
      MulAtLeast(m, k - 1);
      assert m * (k - 1) == m * k - m;
      if m >= 0 {
        assert m * (k - 1) >= 0 by { MulSigns(m, k - 1); }
      } else {
        assert m * (k - 1) <= 0 by { MulSigns(m, k - 1); }
      }
    } else if k < 0 {
      MulSub(m, 0, -k);
      MulAtLeast(m, -k);
    }
  }

  lemma MulSigns(m: int, k: int)
    requires k >= 0
    ensures m >= 0 ==> m * k >= 0
    ensures m <= 0 ==> m * k <= 0
  {
  }

  /** Adding a multiple of m does not change the remainder. */
  lemma ModShift(a: int, m: int, t: int)
    requires m != 0
    ensures PyMod(a + m * t, m) == PyMod(a, m)
  {
    var q, r := PyDiv(a, m), PyMod(a, m);
    var q', r' := PyDiv(a + m * t, m), PyMod(a + m * t, m);
    MulAddLeft(m, q, t);
    MulSub(m, q', q + t);
    assert m * (q' - q - t) == r - r';
    if q' - q - t != 0 {
      MulAtLeast(m, q' - q - t);
      assert false;
    }
  }

  /** A returned inverse is a residue of m and multiplies a to 1 modulo m. */
  lemma ModInvCorrect(a: int, m: int)
    requires ModInv(a, m).Ok?
    ensures m != 0 && Egcd(a, m).0 == 1
    ensures var v := ModInv(a, m).value;
            (m > 0 ==> 0 <= v < m) && (m < 0 ==> m < v <= 0) && PyMod(a * v, m) == PyMod(1, m)
  {
    EgcdBezout(a, m);
    var e := Egcd(a, m);
    var x, y := e.1, e.2;
    var v := PyMod(x, m);
    var q := PyDiv(x, m);
    assert a * x + m * y == 1;
    assert v == x - m * q;
    MulSub(a, x, m * q);
    MulAssoc(a, m, q);
    MulAssoc(m, a, q);
    assert a * m == m * a;
    MulAddLeft(m, -y, -(a * q));
    MulSub(m, 0, y);
    assert a * v == 1 + m * (-y - a * q);
    ModShift(1, m, -y - a * q);
  }

  /** For a >= 0 and m >= 1, an inverse is returned exactly when one exists. */
  lemma ModInvComplete(a: int, m: int, v: int)
    requires a >= 0 && m >= 1 && PyMod(a * v, m) == PyMod(1, m)
    ensures ModInv(a, m).Ok?
  {
    EgcdDivides(a, m);
    var g := Egcd(a, m).0;
    var ka :| DividesBy(g, a, ka);
    var km :| DividesBy(g, m, km);
    var t := PyDiv(a * v, m) - PyDiv(1, m);
    MulSub(m, PyDiv(a * v, m), PyDiv(1, m));
    assert a * v - m * t == 1;
    var k := ka * v - km * t;
    MulSub(g, ka * v, km * t);
    MulAssoc(g, ka, v);
    MulAssoc(g, km, t);
    assert g * k == 1;
    if g >= 2 {
      MulAtLeast(k, g);
    }
  }

  // ----- egcd / modinv and the scalar check as written -----

  /**
   * egcd and modinv are defined in the class body without `self`, and each
   * calls egcd by its bare name, which is not bound at module level: as
   * written, egcd raises NameError as soon as it recurses (a != 0), and
   * modinv raises NameError on every call.
   */
  function EgcdAsWritten(a: int, b: int): (r: Result<(int, int, int), Raised>)
    ensures r.Ok? <==> a == 0
    ensures r.Ok? ==> r.value == Egcd(a, b)
  {
    if a == 0 then Ok((b, 0, 1)) else Err(NameError)
  }

  function ModInvAsWritten(a: int, m: int): (r: Result<int, Raised>)
    ensures r.Err?
  {
    Err(NameError)
  }

  /** 3 is its own inverse modulo 4, yet the code as written finds no inverse for it. */
  lemma ModInvAsWrittenMissesInverse()
    ensures ModInvAsWritten(3, 4).Err? && ModInv(3, 4) == Ok(3)
    ensures EgcdAsWritten(3, 4).Err? && Egcd(3, 4).0 == 1
  {
    assert Egcd(1, 3) == (1, 1, 0) by {
      assert Egcd(0, 1) == (1, 0, 1);
    }
    assert Egcd(3, 4) == (1, -1, 1);
  }

  /**
   * __checkScalarNoneZero as written: the message has named fields but is
   * formatted with positional arguments, so a scalar that is 0 mod p raises
   * KeyError instead of printing and returning False.
   */
  function CheckScalarAsWritten(s: int, p: int): (r: Result<bool, Raised>)
    requires p > 0
    ensures r.Err? <==> s % p == 0
    ensures r.Ok? ==> r.value
  {
    if s % p == 0 then Err(KeyError) else Ok(true)
  }

  /** Every logged operation appended is not a column swap. */
  lemma PermColsAppendRowOp(M: seq<seq<bool>>, ops: seq<Op>, op: Op, cols: nat)
    requires IsBMat(M, |M|, cols) && ColOpsIn(ops, cols) && !op.SwitchColsOp?
    ensures ColOpsIn(ops + [op], cols)
    ensures PermCols(M, ops + [op], cols) == PermCols(M, ops, cols)
  {
    forall i | 0 <= i < |M|
      ensures ApplyColSwaps(M[i], ops + [op]) == ApplyColSwaps(M[i], ops)
    {
      ApplyColSwapsAppend(M[i], ops, op);
    }
  }

  /** A fresh array holding m, or its transpose. */
  method LoadMatrix(m: Matrix, rows: nat, cols: nat, transpose: bool) returns (a: array2<int>)
    requires IsMatrix(m, rows, cols)
    ensures fresh(a)
    ensures !transpose ==> a.Length0 == rows && a.Length1 == cols
    ensures transpose ==> a.Length0 == cols && a.Length1 == rows
    ensures Contents(a) == if transpose then Transpose(m, rows, cols) else m
  {
    if transpose {
      a := new int[cols, rows];
    } else {
      a := new int[rows, cols];
    }
    var i := 0;
    while i < rows
      invariant 0 <= i <= rows
      invariant !transpose ==> forall r, c :: 0 <= r < i && 0 <= c < cols ==> a[r, c] == m[r][c]
      invariant transpose ==> forall c, r :: 0 <= c < cols && 0 <= r < i ==> a[c, r] == m[r][c]
    {
      var j := 0;
      while j < cols
        invariant 0 <= j <= cols
        invariant !transpose ==> forall r, c :: 0 <= r < i && 0 <= c < cols ==> a[r, c] == m[r][c]
        invariant transpose ==> forall c, r :: 0 <= c < cols && 0 <= r < i ==> a[c, r] == m[r][c]
        invariant !transpose ==> forall c :: 0 <= c < j ==> a[i, c] == m[i][c]
        invariant transpose ==> forall c :: 0 <= c < j ==> a[c, i] == m[i][c]
      {
        if transpose {
          a[j, i] := m[i][j];
        } else {
          a[i, j] := m[i][j];
        }
        j := j + 1;
      }
      i := i + 1;
    }
    if transpose {
      MatrixExtensional(Contents(a), Transpose(m, rows, cols), cols, rows);
    } else {
      MatrixExtensional(Contents(a), m, rows, cols);
    }
  }

  /**
   * The engine's invariant, stated on values: the shape, the logged swaps
   * name real columns, a known status is the truth, and while tracked (p is
   * 2 and no row was ever added to itself) the matrix stays row-equivalent
   * over GF(2) to the matrix as last set, with the logged swaps applied.
   */
  ghost predicate Consistent(m: Matrix, K: nat, N: nat, p: int, ops: seq<Op>, status: Option<bool>,
                             G0: Matrix, R: seq<seq<bool>>, W: seq<seq<bool>>, tracked: bool)
  {
    IsMatrix(m, K, N) && K <= N && p >= 1 && ColOpsIn(ops, N) &&
    (status.Some? ==> status.value == IsStandardSpec(m, K)) &&
    (tracked ==> p == 2 && Related(G0, m, ops, R, W, K, N) && (Binary(G0) ==> Binary(m)))
  }

  lemma ConsistentInitially(m: Matrix, K: nat, N: nat, p: int)
    requires IsMatrix(m, K, N) && K <= N && p >= 1
    ensures Consistent(m, K, N, p, [], None, m, Identity(K), Identity(K), p == 2)
  {
    RelatedInitially(m, K, N);
  }

  function RowSwapOp(r1: int, r2: int): Op
  {
    if r1 <= r2 then SwitchRowsOp(r1, r2) else SwitchRowsOp(r2, r1)
  }

  function ColSwapOp(c1: int, c2: int): Op
  {
    if c1 < c2 then SwitchColsOp(c1, c2) else SwitchColsOp(c2, c1)
  }

  /** Op. 0 keeps the GF(2) relation, with the witnesses updated. */
  lemma RelatedSwapRowsStep(G0: Matrix, m: Matrix, ops: seq<Op>, R: seq<seq<bool>>, W: seq<seq<bool>>,
                            K: nat, N: nat, r1: nat, r2: nat)
    returns (R': seq<seq<bool>>, W': seq<seq<bool>>)
    requires Related(G0, m, ops, R, W, K, N) && r1 < K && r2 < K
    ensures Related(G0, SwapRows(m, r1, r2), ops + [RowSwapOp(r1, r2)], R', W', K, N)
  {
    var op := RowSwapOp(r1, r2);
    R' := SwapAt(R, r1, r2);
    W' := seq(K, i requires 0 <= i < K => SwapAt(W[i], r1, r2));
    LinkedSwapRows(PermCols(Par(G0), ops, N), Par(m), R, W, K, N, r1, r2);
    ParSwapRows(m, K, N, r1, r2);
    PermColsAppendRowOp(Par(G0), ops, op, N);
  }

  /** Op. 2 over GF(2) with distinct rows keeps the relation, with the witnesses updated. */
  lemma RelatedAddRowStep(G0: Matrix, m: Matrix, ops: seq<Op>, R: seq<seq<bool>>, W: seq<seq<bool>>,
                          K: nat, N: nat, r1: nat, r2: nat, s: int)
    returns (R': seq<seq<bool>>, W': seq<seq<bool>>)
    requires Related(G0, m, ops, R, W, K, N) && r1 < K && r2 < K && r1 != r2 && Odd(s)
    ensures Related(G0, AddRowTo(m, r1, r2, s, 2), ops + [AddRowOp(r1, r2, s)], R', W', K, N)
  {
    var op := AddRowOp(r1, r2, s);
    var m' := AddRowTo(m, r1, r2, s, 2);
    assert IsMatrix(m', K, N);
    R' := R[r1 := seq(K, j requires 0 <= j < K => R[r1][j] != R[r2][j])];
    W' := seq(K, i requires 0 <= i < K => W[i][r2 := W[i][r2] != W[i][r1]]);
    ParAddRowGf2(m, K, N, r1, r2, s);
    LinkedAddRow(PermCols(Par(G0), ops, N), Par(m), R, W, K, N, r1, r2, Par(m'));
    PermColsAppendRowOp(Par(G0), ops, op, N);
  }

  /** Op. 3 keeps the relation once the swap is logged with its columns in order. */
  lemma RelatedSwapColsStep(G0: Matrix, m: Matrix, ops: seq<Op>, R: seq<seq<bool>>, W: seq<seq<bool>>,
                            K: nat, N: nat, c1: nat, c2: nat)
    requires Related(G0, m, ops, R, W, K, N) && c1 < N && c2 < N && c1 != c2
    ensures Related(G0, SwapCols(m, c1, c2), ops + [ColSwapOp(c1, c2)], R, W, K, N)
  {
    var lo, hi := if c1 < c2 then c1 else c2, if c1 < c2 then c2 else c1;
    assert SwapCols(m, c1, c2) == SwapCols(m, lo, hi) by {
      forall i | 0 <= i < K
        ensures SwapCols(m, c1, c2)[i] == SwapCols(m, lo, hi)[i]
      {
        assert forall j :: 0 <= j < N ==> SwapCols(m, c1, c2)[i][j] == SwapCols(m, lo, hi)[i][j];
      }
    }
    RelatedSwapCols(G0, m, ops, R, W, K, N, lo, hi);
  }

  lemma ConsistentSwapRows(m: Matrix, K: nat, N: nat, p: int, ops: seq<Op>, status: Option<bool>,
                           G0: Matrix, R: seq<seq<bool>>, W: seq<seq<bool>>, tracked: bool, r1: nat, r2: nat)
    returns (R': seq<seq<bool>>, W': seq<seq<bool>>)
    requires Consistent(m, K, N, p, ops, status, G0, R, W, tracked) && r1 < K && r2 < K
    ensures Consistent(SwapRows(m, r1, r2), K, N, p, ops + [RowSwapOp(r1, r2)], None, G0, R', W', tracked)
  {
    assert ColOpsIn(ops + [RowSwapOp(r1, r2)], N);
    R', W' := R, W;
    if tracked {
      R', W' := RelatedSwapRowsStep(G0, m, ops, R, W, K, N, r1, r2);
    }
  }

  lemma ConsistentAddRow(m: Matrix, K: nat, N: nat, p: int, ops: seq<Op>, status: Option<bool>,
                         G0: Matrix, R: seq<seq<bool>>, W: seq<seq<bool>>, tracked: bool,
                         r1: nat, r2: nat, s: int)
    returns (R': seq<seq<bool>>, W': seq<seq<bool>>)
    requires Consistent(m, K, N, p, ops, status, G0, R, W, tracked) && r1 < K && r2 < K
    requires 0 < s < p
    ensures Consistent(AddRowTo(m, r1, r2, s, p), K, N, p, ops + [AddRowOp(r1, r2, s)], None, G0, R', W',
                       tracked && r1 != r2)
  {
    assert ColOpsIn(ops + [AddRowOp(r1, r2, s)], N);
    assert IsMatrix(AddRowTo(m, r1, r2, s, p), K, N);
    R', W' := R, W;
    if tracked && r1 != r2 {
      R', W' := RelatedAddRowStep(G0, m, ops, R, W, K, N, r1, r2, s);
    }
  }

  lemma ConsistentSwapCols(m: Matrix, K: nat, N: nat, p: int, ops: seq<Op>, status: Option<bool>,
                           G0: Matrix, R: seq<seq<bool>>, W: seq<seq<bool>>, tracked: bool, c1: nat, c2: nat)
    requires Consistent(m, K, N, p, ops, status, G0, R, W, tracked) && c1 < N && c2 < N && c1 != c2
    ensures Consistent(SwapCols(m, c1, c2), K, N, p, ops + [ColSwapOp(c1, c2)], None, G0, R, W, tracked)
  {
    assert ColOpsIn(ops + [ColSwapOp(c1, c2)], N);
    assert IsMatrix(SwapCols(m, c1, c2), K, N);
    if tracked {
      RelatedSwapColsStep(G0, m, ops, R, W, K, N, c1, c2);
    }
  }

  /** Scaling by a scalar other than 0 or 1 needs p > 2, so the GF(2) tracking is already off. */
  lemma ConsistentScale(m: Matrix, m': Matrix, K: nat, N: nat, p: int, ops: seq<Op>, status: Option<bool>,
                        G0: Matrix, R: seq<seq<bool>>, W: seq<seq<bool>>, tracked: bool, op: Op, s: int)
    requires Consistent(m, K, N, p, ops, status, G0, R, W, tracked) && IsMatrix(m', K, N)
    requires 1 < s < p && (op.SwitchColsOp? ==> 0 <= op.c1 < N && 0 <= op.c2 < N)
    ensures Consistent(m', K, N, p, ops + [op], None, G0, R, W, tracked)
  {
    assert ColOpsIn(ops + [op], N);
  }

  // ----- the elimination step of standardize -----

  /**
   * The effect of cleaning column `pivot`: every other row whose entry x in
   * that column has (-x) mod p != 0 gets (-x) mod p times the pivot row
   * added, mod p.  (A scalar that is 0 mod p is refused by the row addition.)
   */
  ghost function EliminateColumn(m: Matrix, pivot: nat, K: nat, N: nat, p: int): (m': Matrix)
    requires IsMatrix(m, K, N) && pivot < K <= N && p >= 1
    ensures IsMatrix(m', K, N)
  {
    seq(K, i requires 0 <= i < K =>
      if i != pivot && (-m[i][pivot]) % p != 0 then AddRowTo(m, i, pivot, (-m[i][pivot]) % p, p)[i] else m[i])
  }

  /**
   * cleanCurCol as written calls addRow for every nonzero entry of the pivot
   * column, so an even nonzero entry over GF(2) reaches the scalar check with
   * a scalar that is 0 mod 2 and raises KeyError; the corrected elimination
   * leaves that row as it is.
   */
  lemma CleanCurColAsWrittenRaises()
    ensures var m := [[1, 0], [2, 1]];
            m[1][0] != 0 && CheckScalarAsWritten(-m[1][0], 2) == Err(KeyError) &&
            EliminateColumn(m, 0, 2, 2, 2) == m
  {
    var m := [[1, 0], [2, 1]];
    assert (-m[1][0]) % 2 == 0;
    assert EliminateColumn(m, 0, 2, 2, 2)[1] == m[1];
    assert EliminateColumn(m, 0, 2, 2, 2)[0] == m[0];
  }

  /** Rows before `row` are cleaned, the others are as they were in m0. */
  ghost predicate CleanedUpTo(m: Matrix, m0: Matrix, pivot: nat, row: nat, K: nat, N: nat, p: int)
    requires IsMatrix(m0, K, N) && pivot < K <= N && p >= 1
  {
    |m| == K && forall i :: 0 <= i < K ==> m[i] == (if i < row then EliminateColumn(m0, pivot, K, N, p)[i] else m0[i])
  }

  /** One iteration of cleanCurCol, as a step between matrices. */
  lemma CleanStep(m0: Matrix, before: Matrix, after: Matrix, pivot: nat, row: nat, K: nat, N: nat, p: int)
    requires IsMatrix(m0, K, N) && pivot < K <= N && p >= 1 && row < K
    requires CleanedUpTo(before, m0, pivot, row, K, N, p)
    requires var x := before[row][pivot];
             after == if row != pivot && x != 0 && (-x) % p != 0 then AddRowTo(before, row, pivot, (-x) % p, p) else before
    ensures CleanedUpTo(after, m0, pivot, row + 1, K, N, p)
  {
    var target := EliminateColumn(m0, pivot, K, N, p);
    var x := before[row][pivot];
    if row != pivot && x != 0 && (-x) % p != 0 {
      assert before[row] == m0[row] && before[pivot] == m0[pivot];
      assert after[row] == target[row] by {
        assert forall j :: 0 <= j < N ==> after[row][j] == target[row][j];
      }
    }
  }

  lemma CleanedAll(m: Matrix, m0: Matrix, pivot: nat, K: nat, N: nat, p: int)
    requires IsMatrix(m0, K, N) && pivot < K <= N && p >= 1
    requires CleanedUpTo(m, m0, pivot, K, K, N, p)
    ensures m == EliminateColumn(m0, pivot, K, N, p)
  {
  }

  /** The first `upto` columns are unit columns: the identity block is built that far. */
  ghost predicate UnitColumns(m: Matrix, upto: nat, K: nat)
    requires K <= |m| && forall i :: 0 <= i < K ==> upto <= |m[i]|
  {
    forall i, j :: 0 <= i < K && 0 <= j < upto ==> m[i][j] == (if i == j then 1 else 0)
  }

  /** The log suffix from n0 grows by the operation just appended. */
  lemma LogSuffixAppend(ops: seq<Op>, n0: nat, op: Op)
    requires n0 <= |ops|
    ensures (ops + [op])[n0..] == ops[n0..] + [op]
  {
  }

  /**
   * Where the pivot loop leaves a 0/1 matrix: with every pivot column a unit
   * column it is standard; stopped at a zero row it is not of full rank.
   */
  lemma PivotOutcome(Gs: Matrix, m: Matrix, ops: seq<Op>, R: seq<seq<bool>>, W: seq<seq<bool>>,
                     K: nat, N: nat, cp: nat, exhausted: bool)
    requires IsMatrix(m, K, N) && K <= N && Binary(m) && Related(Gs, m, ops, R, W, K, N)
    requires exhausted ==> cp < K && IsZeroRow(m, cp, N)
    requires !exhausted ==> UnitColumns(m, K, K)
    ensures IsStandardSpec(m, K) || HasZeroRow(m, K, N)
    ensures FullRank(Par(Gs), K, N) <==> IsStandardSpec(m, K)
  {
    if exhausted {
      ZeroRowMeansDependent(Gs, m, ops, R, W, K, N);
    } else {
      StandardIffIdentityBlock(m, K, N);
    }
    if IsStandardSpec(m, K) {
      StandardMeansFullRank(Gs, m, ops, R, W, K, N);
    }
  }

  /** At start position t the search meets only zeros: down column t and along row t. */
  ghost predicate SearchedClear(m: Matrix, t: nat, K: nat, N: nat)
    requires IsMatrix(m, K, N) && t < K <= N
  {
    (forall r :: t <= r < K ==> m[r][t] == 0) && (forall c :: t <= c < N ==> m[t][c] == 0)
  }

  /** The pivot search found nothing at start positions cp..upto-1. */
  ghost predicate ScanClear(m: Matrix, cp: nat, upto: nat, K: nat, N: nat)
    requires IsMatrix(m, K, N) && upto <= K <= N
  {
    forall t :: cp <= t < upto ==> SearchedClear(m, t, K, N)
  }

  /** A search that finds nothing leaves the whole block m[cp.., cp..] zero. */
  lemma ScanClearBlockZero(m: Matrix, cp: nat, K: nat, N: nat)
    requires IsMatrix(m, K, N) && K <= N && ScanClear(m, cp, K, K, N)
    ensures forall i, j :: cp <= i < K && cp <= j < N ==> m[i][j] == 0
  {
    forall i, j | cp <= i < K && cp <= j < N
      ensures m[i][j] == 0
    {
      if i <= j {
        assert SearchedClear(m, i, K, N);
      } else {
        assert SearchedClear(m, j, K, N);
      }
    }
  }

  /** Cleaning the pivot column of a 0/1 matrix with pivot 1 extends the identity block by one column. */
  lemma EliminateExtendsUnitColumns(m: Matrix, cp: nat, K: nat, N: nat)
    requires IsMatrix(m, K, N) && K <= N && cp < K && Binary(m) && UnitColumns(m, cp, K) && m[cp][cp] == 1
    ensures Binary(EliminateColumn(m, cp, K, N, 2)) && UnitColumns(EliminateColumn(m, cp, K, N, 2), cp + 1, K)
  {
    var m' := EliminateColumn(m, cp, K, N, 2);
    forall i, j | 0 <= i < K && 0 <= j < N
      ensures 0 <= m'[i][j] < 2
      ensures j <= cp ==> m'[i][j] == (if i == j then 1 else 0)
    {
      if i != cp && (-m[i][cp]) % 2 != 0 {
        assert m[i][cp] == 1;
        assert m'[i][j] == (m[i][j] + m[cp][j] * 1) % 2;
        if j < cp {
          assert m[cp][j] == 0;
        }
      }
    }
  }

  /** Swapping two rows at or below the pivot, or two columns at or right of it, keeps the identity block. */
  lemma SwapsKeepUnitColumns(m: Matrix, cp: nat, K: nat, N: nat, r: nat, c: nat)
    requires IsMatrix(m, K, N) && K <= N && cp <= r < K && cp <= c < N && cp < K && UnitColumns(m, cp, K)
    ensures UnitColumns(SwapRows(m, r, cp), cp, K)
    ensures UnitColumns(SwapCols(SwapRows(m, r, cp), c, cp), cp, K)
    ensures Binary(m) ==> Binary(SwapCols(SwapRows(m, r, cp), c, cp))
    ensures SwapCols(SwapRows(m, r, cp), c, cp)[cp][cp] == m[r][c]
  {
    var m1 := SwapRows(m, r, cp);
    SwapRowsKeepUnitColumns(m, cp, K, N, r);
    SwapColsKeepUnitColumns(m1, cp, K, N, c);
    if Binary(m) {
      SwapRowsKeepBinary(m, r, cp);
      SwapColsKeepBinary(m1, c, cp);
    }
  }

  lemma SwapRowsKeepUnitColumns(m: Matrix, cp: nat, K: nat, N: nat, r: nat)
    requires IsMatrix(m, K, N) && K <= N && cp <= r < K && UnitColumns(m, cp, K)
    ensures IsMatrix(SwapRows(m, r, cp), K, N) && UnitColumns(SwapRows(m, r, cp), cp, K)
  {
    var m1 := SwapRows(m, r, cp);
    forall i, j | 0 <= i < K && 0 <= j < cp
      ensures m1[i][j] == (if i == j then 1 else 0)
    {
      var i' := if i == r then cp else if i == cp then r else i;
      assert m1[i] == m[i'];
      assert m[i'][j] == (if i' == j then 1 else 0);
    }
  }

  lemma SwapColsKeepUnitColumns(m: Matrix, cp: nat, K: nat, N: nat, c: nat)
    requires IsMatrix(m, K, N) && K <= N && cp <= c < N && cp < K && UnitColumns(m, cp, K)
    ensures IsMatrix(SwapCols(m, c, cp), K, N) && UnitColumns(SwapCols(m, c, cp), cp, K)
  {
    var m1 := SwapCols(m, c, cp);
    forall i, j | 0 <= i < K && 0 <= j < cp
      ensures m1[i][j] == (if i == j then 1 else 0)
    {
      assert m1[i] == SwapAt(m[i], c, cp);
      assert m1[i][j] == m[i][j];
    }
  }

  lemma SwapRowsKeepBinary(m: Matrix, r1: nat, r2: nat)
    requires r1 < |m| && r2 < |m| && Binary(m)
    ensures Binary(SwapRows(m, r1, r2))
  {
    var m1 := SwapRows(m, r1, r2);
    forall i, j | 0 <= i < |m1| && 0 <= j < |m1[i]|
      ensures 0 <= m1[i][j] < 2
    {
      assert m1[i] == m[if i == r1 then r2 else if i == r2 then r1 else i];
    }
  }

  lemma SwapColsKeepBinary(m: Matrix, c1: nat, c2: nat)
    requires (forall i :: 0 <= i < |m| ==> c1 < |m[i]| && c2 < |m[i]|) && Binary(m)
    ensures Binary(SwapCols(m, c1, c2))
  {
    var m1 := SwapCols(m, c1, c2);
    forall i, j | 0 <= i < |m1| && 0 <= j < |m1[i]|
      ensures 0 <= m1[i][j] < 2
    {
      assert m1[i] == SwapAt(m[i], c1, c2);
      assert m1[i][j] == m[i][if j == c1 then c2 else if j == c2 then c1 else j];
    }
  }


  ghost function Contents(a: array2<int>): (m: Matrix)
    reads a
    ensures IsMatrix(m, a.Length0, a.Length1)
    ensures forall i, j :: 0 <= i < a.Length0 && 0 <= j < a.Length1 ==> m[i][j] == a[i, j]
  {
    seq(a.Length0, i requires 0 <= i < a.Length0 reads a =>
      seq(a.Length1, j requires 0 <= i < a.Length0 && 0 <= j < a.Length1 reads a => a[i, j]))
  }

  /** Rows r1 and r2 of a trade places, in place. */
  method SwapRowsInPlace(a: array2<int>, r1: nat, r2: nat)
    requires r1 < a.Length0 && r2 < a.Length0
    modifies a
    ensures Contents(a) == SwapRows(old(Contents(a)), r1, r2)
  {
    ghost var m := Contents(a);
    var j := 0;
    while j < a.Length1
      invariant 0 <= j <= a.Length1
      invariant forall i, c :: 0 <= i < a.Length0 && 0 <= c < a.Length1 ==>
                  a[i, c] == m[if c < j && i == r1 then r2 else if c < j && i == r2 then r1 else i][c]
    {
      a[r1, j], a[r2, j] := a[r2, j], a[r1, j];
      j := j + 1;
    }
    MatrixExtensional(Contents(a), SwapRows(m, r1, r2), a.Length0, a.Length1);
  }

  /** Row r of a is multiplied by s modulo p, in place. */
  method ScaleRowInPlace(a: array2<int>, r: nat, s: int, p: int)
    requires r < a.Length0 && p > 0
    modifies a
    ensures Contents(a) == ScaleRow(old(Contents(a)), r, s, p)
  {
    ghost var m := Contents(a);
    var j := 0;
    while j < a.Length1
      invariant 0 <= j <= a.Length1
      invariant forall i, c :: 0 <= i < a.Length0 && 0 <= c < a.Length1 ==>
                  a[i, c] == if i == r && c < j then (m[i][c] * s) % p else m[i][c]
    {
      a[r, j] := (a[r, j] * s) % p;
      j := j + 1;
    }
    MatrixExtensional(Contents(a), ScaleRow(m, r, s, p), a.Length0, a.Length1);
  }

  /** Row r1 of a becomes (row r1 + s * row r2) mod p, in place; r1 == r2 is allowed. */
  method AddRowInPlace(a: array2<int>, r1: nat, r2: nat, s: int, p: int)
    requires r1 < a.Length0 && r2 < a.Length0 && p > 0
    modifies a
    ensures Contents(a) == AddRowTo(old(Contents(a)), r1, r2, s, p)
  {
    ghost var m := Contents(a);
    var j := 0;
    while j < a.Length1
      invariant 0 <= j <= a.Length1
      invariant forall i, c :: 0 <= i < a.Length0 && 0 <= c < a.Length1 ==>
                  a[i, c] == if i == r1 && c < j then (m[r1][c] + m[r2][c] * s) % p else m[i][c]
    {
      a[r1, j] := (a[r1, j] + a[r2, j] * s) % p;
      j := j + 1;
    }
    MatrixExtensional(Contents(a), AddRowTo(m, r1, r2, s, p), a.Length0, a.Length1);
  }

  /** Columns c1 and c2 of a trade places, in place. */
  method SwapColsInPlace(a: array2<int>, c1: nat, c2: nat)
    requires c1 < a.Length1 && c2 < a.Length1
    modifies a
    ensures Contents(a) == SwapCols(old(Contents(a)), c1, c2)
  {
    ghost var m := Contents(a);
    var i := 0;
    while i < a.Length0
      invariant 0 <= i <= a.Length0
      invariant forall r, c :: 0 <= r < a.Length0 && 0 <= c < a.Length1 ==>
                  a[r, c] == m[r][if r < i && c == c1 then c2 else if r < i && c == c2 then c1 else c]
    {
      a[i, c1], a[i, c2] := a[i, c2], a[i, c1];
      i := i + 1;
    }
    MatrixExtensional(Contents(a), SwapCols(m, c1, c2), a.Length0, a.Length1);
  }

  /** Column c of a is multiplied by s modulo p, in place. */
  method ScaleColInPlace(a: array2<int>, c: nat, s: int, p: int)
    requires c < a.Length1 && p > 0
    modifies a
    ensures Contents(a) == ScaleCol(old(Contents(a)), c, s, p)
  {
    ghost var m := Contents(a);
    var i := 0;
    while i < a.Length0
      invariant 0 <= i <= a.Length0
      invariant forall r, c' :: 0 <= r < a.Length0 && 0 <= c' < a.Length1 ==>
                  a[r, c'] == if c' == c && r < i then (m[r][c'] * s) % p else m[r][c']
    {
      a[i, c] := (a[i, c] * s) % p;
      i := i + 1;
    }
    MatrixExtensional(Contents(a), ScaleCol(m, c, s, p), a.Length0, a.Length1);
  }

  /**
   * What one pass of the pivot loop of standardize did: cleaned the pivot
   * column, found the rest of the matrix zero, or reached makeCurValOne
   * with p != 2, where the name `modinv` is looked up at module level and
   * is not bound there (it is an attribute of the class), so Python raises
   * NameError.
   */
  datatype PivotStep = Cleaned | Exhausted | ModInvUnbound

  /**
   * Exceptions of the code as written: NameError from a bare `modinv` or
   * `egcd`, KeyError from the scalar check's message.
   */
  datatype Raised = NameError | KeyError

  /** getH's matrix [-A^T mod p | I mod p], built entry by entry from the array. */
  method BuildCheckMatrix(a: array2<int>, K: nat, N: nat, p: int) returns (H: Matrix)
    requires a.Length0 == K && a.Length1 == N && K <= N && p > 0
    ensures H == CheckMatrix(Contents(a), K, N, p)
  {
    ghost var target := CheckMatrix(Contents(a), K, N, p);
    H := [];
    var r := 0;
    while r < N - K
      invariant 0 <= r <= N - K && |H| == r
      invariant forall r' :: 0 <= r' < r ==> H[r'] == target[r']
    {
      var row := BuildCheckRow(a, K, N, p, r);
      H := H + [row];
      r := r + 1;
    }
    assert H == target;
  }

  /** Row r of getH's matrix. */
  method BuildCheckRow(a: array2<int>, K: nat, N: nat, p: int, r: nat) returns (row: seq<int>)
    requires a.Length0 == K && a.Length1 == N && K + r < N && p > 0
    ensures row == CheckMatrix(Contents(a), K, N, p)[r]
  {
    ghost var m := Contents(a);
    row := [];
    var j := 0;
    while j < N
      invariant 0 <= j <= N && |row| == j
      invariant forall j' :: 0 <= j' < j ==> row[j'] == CheckEntry(m, K, N, p, r, j')
    {
      var v := if j < K then (-a[j, K + r]) % p else (if j - K == r then 1 else 0) % p;
      row := row + [v];
      j := j + 1;
    }
    assert row == CheckMatrix(m, K, N, p)[r];
  }

  /**
   * isInSpace's test on the columns of X: entry i is true exactly when
   * every entry of column i of H X is even.
   */
  /** The syndrome test of each column of X, its coordinates first permuted by the logged column swaps. */
  method PermutedSyndromes(H: Matrix, X: Matrix, ops: seq<Op>, n: nat, cols: nat) returns (res: seq<bool>)
    requires IsMatrix(H, |H|, n) && IsMatrix(X, n, cols) && ColOpsIn(ops, n)
    ensures |res| == cols &&
            forall i :: 0 <= i < cols ==> res[i] == SyndromeZero(H, ApplyColSwaps(Column(X, i), ops), n)
  {
    var Y := PermuteCoordinates(X, ops);
    ColSwapsKeepShape(X, ops, n, cols);
    forall i | 0 <= i < cols
      ensures Column(Y, i) == ApplyColSwaps(Column(X, i), ops)
    {
      ColumnColSwaps(X, ops, n, cols, i);
    }
    res := Syndromes(H, Y, n, cols);
  }

  /** Over GF(2), the permuted syndrome test of every column is membership in the row space of G0. */
  lemma CodeMembershipColumns(G0: Matrix, Gc: Matrix, ops: seq<Op>, R: seq<seq<bool>>, W: seq<seq<bool>>,
                              K: nat, N: nat, X: Matrix, cols: nat, bits: seq<bool>)
    requires Related(G0, Gc, ops, R, W, K, N) && K <= N && Binary(Gc) && IsStandardSpec(Gc, K)
    requires IsMatrix(X, N, cols) && |bits| == cols
    requires forall i :: 0 <= i < cols ==> bits[i] == SyndromeZero(CheckMatrix(Gc, K, N, 2), ApplyColSwaps(Column(X, i), ops), N)
    ensures forall i :: 0 <= i < cols ==> bits[i] == InRowSpace(ParVec(Column(X, i)), Par(G0), K, N)
  {
    forall i | 0 <= i < cols
      ensures bits[i] == InRowSpace(ParVec(Column(X, i)), Par(G0), K, N)
    {
      CodeMembership(G0, Gc, ops, R, W, K, N, Column(X, i));
    }
  }

  method Syndromes(H: Matrix, X: Matrix, n: nat, cols: nat) returns (res: seq<bool>)
    requires IsMatrix(H, |H|, n) && IsMatrix(X, n, cols)
    ensures |res| == cols && forall i :: 0 <= i < cols ==> res[i] == SyndromeZero(H, Column(X, i), n)
  {
    res := [];
    var i := 0;
    while i < cols
      invariant 0 <= i <= cols && |res| == i
      invariant forall i' :: 0 <= i' < i ==> res[i'] == SyndromeZero(H, Column(X, i'), n)
    {
      var ok := true;
      var r := 0;
      while r < |H|
        invariant 0 <= r <= |H|
        invariant ok == forall r' :: 0 <= r' < r ==> IntDot(H[r'], Column(X, i), n) % 2 == 0
      {
        var sum := 0;
        var j := 0;
        while j < n
          invariant 0 <= j <= n && sum == IntDot(H[r], Column(X, i), j)
        {
          sum := sum + H[r][j] * X[j][i];
          j := j + 1;
        }
        if sum % 2 != 0 {
          ok := false;
        }
        r := r + 1;
      }
      res := res + [ok];
      i := i + 1;
    }
  }

  class GeneratorMatrix {
    var G: array2<int>
    var K: nat
    var N: nat
    const p: int
    var OPList: seq<Op>
    /** Some(true): standard, Some(false): not standard, None: not known. */
    var standardStatus: Option<bool>

    /**
     * Ghost bookkeeping: the matrix as last set, and, while `tracked`, the
     * witnesses that the current matrix is row-equivalent over GF(2) to it
     * with the logged column swaps applied.
     */
    ghost var G0: Matrix
    ghost var R: seq<seq<bool>>
    ghost var W: seq<seq<bool>>
    ghost var tracked: bool

    /** The current contents of G as a value. */
    ghost function Mat(): (m: Matrix)
      reads this`G, G
      ensures IsMatrix(m, G.Length0, G.Length1)
      ensures forall i, j :: 0 <= i < G.Length0 && 0 <= j < G.Length1 ==> m[i][j] == G[i, j]
    {
      Contents(G)
    }

    ghost predicate Valid()
      reads this, G
    {
      G.Length0 == K && G.Length1 == N &&
      Consistent(Mat(), K, N, p, OPList, standardStatus, G0, R, W, tracked)
    }

    /** The matrix as set by setG: transposed when it has more rows than columns. */
    ghost static function Oriented(m: Matrix, rows: nat, cols: nat): (o: Matrix)
      requires IsMatrix(m, rows, cols)
      ensures rows > cols ==> IsMatrix(o, cols, rows)
      ensures rows <= cols ==> IsMatrix(o, rows, cols)
    {
      if rows > cols then Transpose(m, rows, cols) else m
    }

    constructor (m: Matrix, cols: nat, p: int)
      requires |m| >= 1 && IsMatrix(m, |m|, cols) && p >= 1
      ensures Valid() && fresh(G) && this.p == p
      ensures K <= N && Mat() == Oriented(m, |m|, cols)
      ensures OPList == [] && standardStatus == None && tracked == (p == 2)
    {
      var rows := |m|;
      var k, n := if rows > cols then cols else rows, if rows > cols then rows else cols;
      this.p := p;
      K, N := k, n;
      OPList := [];
      standardStatus := None;
      G0 := Oriented(m, rows, cols);
      R, W := Identity(k), Identity(k);
      tracked := p == 2;
      var a := LoadMatrix(m, rows, cols, rows > cols);
      G := a;
      new;
      ConsistentInitially(G0, K, N, p);
    }

    /** setG: with no matrix nothing happens; otherwise load it and forget the log and the status. */
    method SetG(g: Option<Matrix>, cols: nat)
      requires p >= 1 && (g.Some? ==> |g.value| >= 1 && IsMatrix(g.value, |g.value|, cols))
      modifies this
      ensures g.None? ==> unchanged(this)
      ensures g.Some? ==> Valid() && fresh(G) && K <= N && Mat() == Oriented(g.value, |g.value|, cols)
      ensures g.Some? ==> OPList == [] && standardStatus == None && tracked == (p == 2)
    {
      if g.None? {
        return;
      }
      LoadG(g.value, cols);
    }

    /** The loading half of setG: a new matrix, an empty log and an unknown status. */
    method LoadG(m: Matrix, cols: nat)
      requires p >= 1 && |m| >= 1 && IsMatrix(m, |m|, cols)
      modifies this
      ensures Valid() && fresh(G)
      ensures K <= N && Mat() == Oriented(m, |m|, cols)
      ensures OPList == [] && standardStatus == None && tracked == (p == 2)
    {
      var rows := |m|;
      if rows > cols {
        K, N := cols, rows;
      } else {
        K, N := rows, cols;
      }
      OPList := [];
      standardStatus := None;
      G0 := Oriented(m, rows, cols);
      R, W := Identity(K), Identity(K);
      tracked := p == 2;
      ConsistentInitially(G0, K, N, p);
      G := LoadMatrix(m, rows, cols, rows > cols);
    }

    /** Op. 0: swap two distinct valid rows and log [0, min, max]; otherwise nothing happens. */
    method SwitchRows(r1: int, r2: int)
      requires Valid()
      modifies this, G
      ensures Valid() && G == old(G) && K == old(K) && N == old(N)
      ensures G0 == old(G0) && tracked == old(tracked)
      ensures if 0 <= r1 < K && 0 <= r2 < K && r1 != r2 then
                Mat() == SwapRows(old(Mat()), r1, r2) &&
                OPList == old(OPList) + [RowSwapOp(r1, r2)] && standardStatus == None
              else
                Mat() == old(Mat()) && OPList == old(OPList) && standardStatus == old(standardStatus)
    {
      if !(0 <= r1 < K && 0 <= r2 < K) || r1 == r2 {
        return;
      }
      ghost var R', W' := ConsistentSwapRows(Mat(), K, N, p, OPList, standardStatus, G0, R, W, tracked, r1, r2);
      SwapRowsSteps(r1, r2, R', W');
    }

    /** The steps of switchRows, which SwitchRows shows keep Valid(). */
    method SwapRowsSteps(r1: nat, r2: nat, ghost R': seq<seq<bool>>, ghost W': seq<seq<bool>>)
      requires r1 < G.Length0 && r2 < G.Length0
      modifies this, G
      ensures G == old(G) && K == old(K) && N == old(N) && G0 == old(G0) && tracked == old(tracked)
      ensures Mat() == SwapRows(old(Mat()), r1, r2)
      ensures OPList == old(OPList) + [RowSwapOp(r1, r2)] && standardStatus == None && R == R' && W == W'
    {
      SwapRowsInPlace(G, r1, r2);
      R, W := R', W';
      OPList := OPList + [RowSwapOp(r1, r2)];
      standardStatus := None;
    }

    /** Op. 1: row := row * (scalar mod p) mod p unless the row is invalid or the scalar is 0 or 1 mod p. */
    method MultiRow(row: int, scalar: int)
      requires Valid()
      modifies this, G
      ensures Valid() && G == old(G) && K == old(K) && N == old(N)
      ensures G0 == old(G0) && tracked == old(tracked)
      ensures if 0 <= row < K && scalar % p != 0 && scalar % p != 1 then
                Mat() == ScaleRow(old(Mat()), row, scalar % p, p) &&
                OPList == old(OPList) + [MultiRowOp(row, scalar % p)] && standardStatus == None
              else
                Mat() == old(Mat()) && OPList == old(OPList) && standardStatus == old(standardStatus)
    {
      if scalar % p == 0 || !(0 <= row < K) {
        return;
      }
      var s := scalar % p;
      if s == 1 {
        return;
      }
      ghost var m := Mat();
      ScaleRowInPlace(G, row, s, p);
      ConsistentScale(m, Mat(), K, N, p, OPList, standardStatus, G0, R, W, tracked, MultiRowOp(row, s), s);
      OPList := OPList + [MultiRowOp(row, s)];
      standardStatus := None;
    }

    /**
     * Op. 2: row r1 := (row r1 + (scalar mod p) * row r2) mod p, unless a row
     * is invalid or the scalar is 0 mod p.  r1 == r2 is allowed.
     */
    method AddRow(r1: int, r2: int, scalar: int)
      requires Valid()
      modifies this, G
      ensures Valid() && G == old(G) && K == old(K) && N == old(N)
      ensures G0 == old(G0)
      ensures if 0 <= r1 < K && 0 <= r2 < K && scalar % p != 0 then
                Mat() == AddRowTo(old(Mat()), r1, r2, scalar % p, p) &&
                OPList == old(OPList) + [AddRowOp(r1, r2, scalar % p)] && standardStatus == None &&
                tracked == (old(tracked) && r1 != r2)
              else
                Mat() == old(Mat()) && OPList == old(OPList) && standardStatus == old(standardStatus) &&
                tracked == old(tracked)
    {
      if scalar % p == 0 || !(0 <= r1 < K && 0 <= r2 < K) {
        return;
      }
      AddValidRow(r1, r2, scalar % p);
    }

    /** addRow past its checks: row r1 += row r2 * s mod p, logged as [2, r1, r2, s]. */
    method AddValidRow(r1: nat, r2: nat, s: int)
      requires Valid() && r1 < K && r2 < K && 0 < s < p
      modifies this, G
      ensures Valid() && G == old(G) && K == old(K) && N == old(N) && G0 == old(G0)
      ensures Mat() == AddRowTo(old(Mat()), r1, r2, s, p)
      ensures OPList == old(OPList) + [AddRowOp(r1, r2, s)] && standardStatus == None
      ensures tracked == (old(tracked) && r1 != r2)
    {
      ghost var R', W' := ConsistentAddRow(Mat(), K, N, p, OPList, standardStatus, G0, R, W, tracked, r1, r2, s);
      AddRowSteps(r1, r2, s, R', W');
    }

    /** The steps of addRow, which AddValidRow shows keep Valid(). */
    method AddRowSteps(r1: nat, r2: nat, s: int, ghost R': seq<seq<bool>>, ghost W': seq<seq<bool>>)
      requires r1 < G.Length0 && r2 < G.Length0 && p > 0
      modifies this, G
      ensures G == old(G) && K == old(K) && N == old(N) && G0 == old(G0)
      ensures Mat() == AddRowTo(old(Mat()), r1, r2, s, p)
      ensures OPList == old(OPList) + [AddRowOp(r1, r2, s)] && standardStatus == None
      ensures tracked == (old(tracked) && r1 != r2) && R == R' && W == W'
    {
      AddRowInPlace(G, r1, r2, s, p);
      R, W := R', W';
      OPList := OPList + [AddRowOp(r1, r2, s)];
      standardStatus := None;
      tracked := tracked && r1 != r2;
    }

    /** Op. 3: swap two distinct valid columns and log [3, min, max]; otherwise nothing happens. */
    method SwitchCols(c1: int, c2: int)
      requires Valid()
      modifies this, G
      ensures Valid() && G == old(G) && K == old(K) && N == old(N)
      ensures G0 == old(G0) && tracked == old(tracked) && R == old(R) && W == old(W)
      ensures if 0 <= c1 < N && 0 <= c2 < N && c1 != c2 then
                Mat() == SwapCols(old(Mat()), c1, c2) &&
                OPList == old(OPList) + [ColSwapOp(c1, c2)] && standardStatus == None
              else
                Mat() == old(Mat()) && OPList == old(OPList) && standardStatus == old(standardStatus)
    {
      if !(0 <= c1 < N && 0 <= c2 < N) || c1 == c2 {
        return;
      }
      ghost var m := Mat();
      SwapColsInPlace(G, c1, c2);
      ConsistentSwapCols(m, K, N, p, OPList, standardStatus, G0, R, W, tracked, c1, c2);
      OPList := OPList + [ColSwapOp(c1, c2)];
      standardStatus := None;
    }

    /** Op. 4: column := column * (scalar mod p) mod p unless the column is invalid or the scalar is 0 or 1 mod p. */
    method MultiCol(col: int, scalar: int)
      requires Valid()
      modifies this, G
      ensures Valid() && G == old(G) && K == old(K) && N == old(N)
      ensures G0 == old(G0) && tracked == old(tracked)
      ensures if 0 <= col < N && scalar % p != 0 && scalar % p != 1 then
                Mat() == ScaleCol(old(Mat()), col, scalar % p, p) &&
                OPList == old(OPList) + [MultiColOp(col, scalar % p)] && standardStatus == None
              else
                Mat() == old(Mat()) && OPList == old(OPList) && standardStatus == old(standardStatus)
    {
      if !(0 <= col < N) || scalar % p == 0 {
        return;
      }
      var s := scalar % p;
      if s == 1 {
        return;
      }
      ghost var m := Mat();
      ScaleColInPlace(G, col, s, p);
      ConsistentScale(m, Mat(), K, N, p, OPList, standardStatus, G0, R, W, tracked, MultiColOp(col, s), s);
      OPList := OPList + [MultiColOp(col, s)];
      standardStatus := None;
    }

    /** isStandard: the diagonal test, then the column-sum test; the answer is cached. */
    method IsStandard() returns (b: bool)
      requires Valid()
      modifies this`standardStatus
      ensures Valid() && b == IsStandardSpec(Mat(), K) && standardStatus == Some(b)
    {
      b := ScanStandard();
      standardStatus := Some(b);
    }

    /** isStandard's scan: the diagonal of the first K columns, then their column sums. */
    method ScanStandard() returns (b: bool)
      requires K <= G.Length0 && K <= G.Length1
      ensures b == IsStandardSpec(Mat(), K)
    {
      var i := 0;
      while i < K
        invariant 0 <= i <= K
        invariant forall i' :: 0 <= i' < i ==> G[i', i'] == 1
      {
        if G[i, i] != 1 {
          return false;
        }
        i := i + 1;
      }
      var c := 0;
      while c < K
        invariant 0 <= c <= K
        invariant forall c' :: 0 <= c' < c ==> ColSum(Mat(), c', K) <= 1
      {
        var sum := 0;
        var r := 0;
        while r < K
          invariant 0 <= r <= K && sum == ColSum(Mat(), c, r)
        {
          sum := sum + G[r, c];
          r := r + 1;
        }
        if sum > 1 {
          return false;
        }
        c := c + 1;
      }
      return true;
    }

    /**
     * The pivot search of standardize: for start positions t = cp, cp+1, ...
     * scan column t downwards from row t, then row t rightwards from column
     * t, and stop at the first nonzero entry.  The contract pins the result
     * down as that first entry in scan order.
     */
    method FindPivot(cp: nat) returns (found: bool, tgtRow: nat, tgtCol: nat)
      requires Valid() && cp < K
      ensures found ==> cp <= tgtRow < K && cp <= tgtCol < N && Mat()[tgtRow][tgtCol] != 0
      ensures found && tgtCol <= tgtRow ==>
                ScanClear(Mat(), cp, tgtCol, K, N) && forall r :: tgtCol <= r < tgtRow ==> Mat()[r][tgtCol] == 0
      ensures found && tgtRow < tgtCol ==>
                ScanClear(Mat(), cp, tgtRow, K, N) && (forall r :: tgtRow <= r < K ==> Mat()[r][tgtRow] == 0) &&
                forall c :: tgtRow <= c < tgtCol ==> Mat()[tgtRow][c] == 0
      ensures !found ==> tgtRow == 0 && tgtCol == 0 && ScanClear(Mat(), cp, K, K, N)
    {
      var t := cp;
      while t < K
        invariant cp <= t <= K
        invariant ScanClear(Mat(), cp, t, K, N)
      {
        var r := t;
        while r < K
          invariant t <= r <= K
          invariant forall r' :: t <= r' < r ==> G[r', t] == 0
        {
          if G[r, t] != 0 {
            return true, r, t;
          }
          r := r + 1;
        }
        var c := t;
        while c < N
          invariant t <= c <= N
          invariant forall c' :: t <= c' < c ==> G[t, c'] == 0
        {
          if G[t, c] != 0 {
            return true, t, c;
          }
          c := c + 1;
        }
        assert SearchedClear(Mat(), t, K, N);
        t := t + 1;
      }
      return false, 0, 0;
    }

    /**
     * One iteration of cleanCurCol: if row is not the pivot and its entry x
     * in the pivot column is nonzero, add (-x) times the pivot row to it.
     */
    method CleanRow(row: nat, pivot: nat, ghost Gs: Matrix, ghost n0: nat, ghost Rg: seq<seq<bool>>, ghost Wg: seq<seq<bool>>)
      returns (ghost Rg': seq<seq<bool>>, ghost Wg': seq<seq<bool>>)
      requires Valid() && pivot < K && row < K && n0 <= |OPList|
      requires p == 2 ==> Related(Gs, Mat(), OPList[n0..], Rg, Wg, K, N)
      modifies this, G
      ensures Valid() && G == old(G) && K == old(K) && N == old(N) && G0 == old(G0) && tracked == old(tracked)
      ensures standardStatus == old(standardStatus) || standardStatus.None?
      ensures old(OPList) <= OPList
      ensures var x := old(Mat())[row][pivot];
              Mat() == if row != pivot && x != 0 && (-x) % p != 0 then AddRowTo(old(Mat()), row, pivot, (-x) % p, p)
                       else old(Mat())
      ensures p == 2 ==> Related(Gs, Mat(), OPList[n0..], Rg', Wg', K, N)
    {
      Rg', Wg' := Rg, Wg;
      ghost var before, ops := Mat(), OPList;
      if row != pivot && G[row, pivot] != 0 {
        var x := G[row, pivot];
        AddRow(row, pivot, -x);
      }
      ghost var x := before[row][pivot];
      if row != pivot && x != 0 && (-x) % p != 0 {
        if p == 2 {
          var sc := (-x) % 2;
          assert Mat() == AddRowTo(before, row, pivot, sc, 2);
          LogSuffixAppend(ops, n0, AddRowOp(row, pivot, sc));
          assert OPList[n0..] == ops[n0..] + [AddRowOp(row, pivot, sc)];
          Rg', Wg' := RelatedAddRowStep(Gs, before, ops[n0..], Rg', Wg', K, N, row, pivot, sc);
        }
      } else {
        assert Mat() == before && OPList == ops;
      }
    }

    /**
     * cleanCurCol: for every other row with a nonzero entry x in the pivot
     * column, add (-x) times the pivot row.  Over GF(2) the relation to the
     * matrix Gs, through the operations logged since position n0, is kept.
     */
    method CleanCurCol(pivot: nat, ghost Gs: Matrix, ghost n0: nat, ghost Rg: seq<seq<bool>>, ghost Wg: seq<seq<bool>>)
      returns (ghost Rg': seq<seq<bool>>, ghost Wg': seq<seq<bool>>)
      requires Valid() && pivot < K && n0 <= |OPList|
      requires p == 2 ==> Related(Gs, Mat(), OPList[n0..], Rg, Wg, K, N)
      modifies this, G
      ensures Valid() && G == old(G) && K == old(K) && N == old(N) && G0 == old(G0) && tracked == old(tracked)
      ensures standardStatus == old(standardStatus) || standardStatus.None?
      ensures old(OPList) <= OPList
      ensures Mat() == EliminateColumn(old(Mat()), pivot, K, N, p)
      ensures p == 2 ==> Related(Gs, Mat(), OPList[n0..], Rg', Wg', K, N)
    {
      ghost var m0 := Mat();
      Rg', Wg' := Rg, Wg;
      var row := 0;
      while row < K
        invariant 0 <= row <= K
        invariant Valid() && G == old(G) && K == old(K) && N == old(N) && G0 == old(G0) && tracked == old(tracked)
        invariant old(OPList) <= OPList && n0 <= |OPList|
        invariant CleanedUpTo(Mat(), m0, pivot, row, K, N, p)
        invariant standardStatus == old(standardStatus) || standardStatus.None?
        invariant p == 2 ==> Related(Gs, Mat(), OPList[n0..], Rg', Wg', K, N)
      {
        Rg', Wg' := CleanNextRow(row, pivot, m0, Gs, n0, Rg', Wg');
        row := row + 1;
      }
      CleanedAll(Mat(), m0, pivot, K, N, p);
    }

    /** One iteration of cleanCurCol: rows before `row + 1` are now cleaned. */
    method CleanNextRow(row: nat, pivot: nat, ghost m0: Matrix, ghost Gs: Matrix, ghost n0: nat,
                        ghost Rg: seq<seq<bool>>, ghost Wg: seq<seq<bool>>)
      returns (ghost Rg': seq<seq<bool>>, ghost Wg': seq<seq<bool>>)
      requires Valid() && pivot < K && row < K && n0 <= |OPList| && IsMatrix(m0, K, N)
      requires CleanedUpTo(Mat(), m0, pivot, row, K, N, p)
      requires p == 2 ==> Related(Gs, Mat(), OPList[n0..], Rg, Wg, K, N)
      modifies this, G
      ensures Valid() && G == old(G) && K == old(K) && N == old(N) && G0 == old(G0) && tracked == old(tracked)
      ensures standardStatus == old(standardStatus) || standardStatus.None?
      ensures old(OPList) <= OPList
      ensures CleanedUpTo(Mat(), m0, pivot, row + 1, K, N, p)
      ensures p == 2 ==> Related(Gs, Mat(), OPList[n0..], Rg', Wg', K, N)
    {
      ghost var before := Mat();
      Rg', Wg' := CleanRow(row, pivot, Gs, n0, Rg, Wg);
      CleanStep(m0, before, Mat(), pivot, row, K, N, p);
    }

    /** Bring the entry found by the pivot search to position (cp, cp): a row swap, then a column swap. */
    method MovePivot(cp: nat, tr: nat, tc: nat, ghost Gs: Matrix, ghost n0: nat,
                     ghost Rg: seq<seq<bool>>, ghost Wg: seq<seq<bool>>)
      returns (ghost Rg': seq<seq<bool>>, ghost Wg': seq<seq<bool>>)
      requires Valid() && cp <= tr < K && cp <= tc < N && n0 <= |OPList|
      requires p == 2 ==> Related(Gs, Mat(), OPList[n0..], Rg, Wg, K, N)
      modifies this, G
      ensures Valid() && G == old(G) && K == old(K) && N == old(N) && G0 == old(G0) && tracked == old(tracked)
      ensures standardStatus == old(standardStatus) || standardStatus.None?
      ensures old(OPList) <= OPList
      ensures Mat() == SwapCols(SwapRows(old(Mat()), tr, cp), tc, cp)
      ensures p == 2 ==> Related(Gs, Mat(), OPList[n0..], Rg', Wg', K, N)
    {
      Rg', Wg' := PivotRowUp(cp, tr, Gs, n0, Rg, Wg);
      PivotColLeft(cp, tc, Gs, n0, Rg', Wg');
    }

    /** The row half of moving a pivot: swap row tr into position cp, logged when tr != cp. */
    method PivotRowUp(cp: nat, tr: nat, ghost Gs: Matrix, ghost n0: nat, ghost Rg: seq<seq<bool>>, ghost Wg: seq<seq<bool>>)
      returns (ghost Rg': seq<seq<bool>>, ghost Wg': seq<seq<bool>>)
      requires Valid() && cp <= tr < K && n0 <= |OPList|
      requires p == 2 ==> Related(Gs, Mat(), OPList[n0..], Rg, Wg, K, N)
      modifies this, G
      ensures Valid() && G == old(G) && K == old(K) && N == old(N) && G0 == old(G0) && tracked == old(tracked)
      ensures standardStatus == old(standardStatus) || standardStatus.None?
      ensures old(OPList) <= OPList
      ensures Mat() == SwapRows(old(Mat()), tr, cp)
      ensures p == 2 ==> Related(Gs, Mat(), OPList[n0..], Rg', Wg', K, N)
    {
      ghost var m0 := Mat();
      Rg', Wg' := Rg, Wg;
      if tr != cp {
        ghost var ops := OPList;
        SwitchRows(tr, cp);
        if p == 2 {
          Rg', Wg' := RelatedSwapRowsStep(Gs, m0, ops[n0..], Rg', Wg', K, N, tr, cp);
          LogSuffixAppend(ops, n0, RowSwapOp(tr, cp));
          assert OPList[n0..] == ops[n0..] + [RowSwapOp(tr, cp)];
        }
      } else {
        assert SwapRows(m0, tr, cp) == m0;
      }
    }

    /** The column half of moving a pivot: swap column tc into position cp, logged when tc != cp. */
    method PivotColLeft(cp: nat, tc: nat, ghost Gs: Matrix, ghost n0: nat, ghost Rg: seq<seq<bool>>, ghost Wg: seq<seq<bool>>)
      requires Valid() && cp < K && cp <= tc < N && n0 <= |OPList|
      requires p == 2 ==> Related(Gs, Mat(), OPList[n0..], Rg, Wg, K, N)
      modifies this, G
      ensures Valid() && G == old(G) && K == old(K) && N == old(N) && G0 == old(G0) && tracked == old(tracked)
      ensures standardStatus == old(standardStatus) || standardStatus.None?
      ensures old(OPList) <= OPList
      ensures Mat() == SwapCols(old(Mat()), tc, cp)
      ensures p == 2 ==> Related(Gs, Mat(), OPList[n0..], Rg, Wg, K, N)
    {
      ghost var m1 := Mat();
      if tc != cp {
        ghost var ops := OPList;
        SwitchCols(tc, cp);
        if p == 2 {
          RelatedSwapColsStep(Gs, m1, ops[n0..], Rg, Wg, K, N, tc, cp);
          LogSuffixAppend(ops, n0, ColSwapOp(tc, cp));
          assert OPList[n0..] == ops[n0..] + [ColSwapOp(tc, cp)];
        }
      } else {
        MatrixExtensional(SwapCols(m1, tc, cp), m1, K, N);
      }
    }

    /**
     * One pass of the pivot loop of standardize at position cp.  Over GF(2)
     * on a 0/1 matrix it either extends the identity block by one column or
     * finds row cp all zero.
     */
    method ReducePivot(cp: nat, ghost Gs: Matrix, ghost n0: nat, ghost Rg: seq<seq<bool>>, ghost Wg: seq<seq<bool>>)
      returns (step: PivotStep, ghost Rg': seq<seq<bool>>, ghost Wg': seq<seq<bool>>)
      requires Valid() && cp < K && n0 <= |OPList|
      requires p == 2 ==> Related(Gs, Mat(), OPList[n0..], Rg, Wg, K, N)
      requires p == 2 && Binary(Gs) ==> Binary(Mat()) && UnitColumns(Mat(), cp, K)
      modifies this, G
      ensures Valid() && G == old(G) && K == old(K) && N == old(N) && G0 == old(G0) && tracked == old(tracked)
      ensures standardStatus == old(standardStatus) || standardStatus.None?
      ensures old(OPList) <= OPList
      ensures step == ModInvUnbound ==> p != 2
      ensures p == 2 ==> Related(Gs, Mat(), OPList[n0..], Rg', Wg', K, N)
      ensures p == 2 && Binary(Gs) ==>
                Binary(Mat()) &&
                (step == Exhausted ==> IsZeroRow(Mat(), cp, N)) &&
                (step == Cleaned ==> UnitColumns(Mat(), cp + 1, K))
    {
      ghost var m0 := Mat();
      Rg', Wg' := Rg, Wg;
      var v := G[cp, cp];
      if v == 1 {
        Rg', Wg' := CleanCurCol(cp, Gs, n0, Rg, Wg);
        if p == 2 && Binary(Gs) {
          EliminateExtendsUnitColumns(m0, cp, K, N);
        }
        return Cleaned, Rg', Wg';
      }
      if v == 0 {
        step, Rg', Wg' := SearchPivot(cp, Gs, n0, Rg, Wg);
        return;
      }
      if p != 2 {
        return ModInvUnbound, Rg', Wg';
      }
      Rg', Wg' := CleanCurCol(cp, Gs, n0, Rg, Wg);
      return Cleaned, Rg', Wg';
    }

    /** The zero-pivot branch of the pivot loop: look for a pivot, move it to (cp, cp) and clean its column. */
    method SearchPivot(cp: nat, ghost Gs: Matrix, ghost n0: nat, ghost Rg: seq<seq<bool>>, ghost Wg: seq<seq<bool>>)
      returns (step: PivotStep, ghost Rg': seq<seq<bool>>, ghost Wg': seq<seq<bool>>)
      requires Valid() && cp < K && n0 <= |OPList|
      requires p == 2 ==> Related(Gs, Mat(), OPList[n0..], Rg, Wg, K, N)
      requires p == 2 && Binary(Gs) ==> Binary(Mat()) && UnitColumns(Mat(), cp, K)
      modifies this, G
      ensures Valid() && G == old(G) && K == old(K) && N == old(N) && G0 == old(G0) && tracked == old(tracked)
      ensures standardStatus == old(standardStatus) || standardStatus.None?
      ensures old(OPList) <= OPList
      ensures step == ModInvUnbound ==> p != 2
      ensures p == 2 ==> Related(Gs, Mat(), OPList[n0..], Rg', Wg', K, N)
      ensures p == 2 && Binary(Gs) ==>
                Binary(Mat()) &&
                (step == Exhausted ==> IsZeroRow(Mat(), cp, N)) &&
                (step == Cleaned ==> UnitColumns(Mat(), cp + 1, K))
    {
      ghost var m0 := Mat();
      Rg', Wg' := Rg, Wg;
      var found, tr, tc := FindPivot(cp);
      if !found {
        if p == 2 && Binary(Gs) {
          ScanClearBlockZero(m0, cp, K, N);
        }
        return Exhausted, Rg', Wg';
      }
      Rg', Wg' := MovePivot(cp, tr, tc, Gs, n0, Rg', Wg');
      if p != 2 {
        return ModInvUnbound, Rg', Wg';
      }
      ghost var m2 := Mat();
      if Binary(Gs) {
        SwapsKeepUnitColumns(m0, cp, K, N, tr, tc);
      }
      Rg', Wg' := CleanCurCol(cp, Gs, n0, Rg', Wg');
      if Binary(Gs) {
        EliminateExtendsUnitColumns(m2, cp, K, N);
      }
      return Cleaned, Rg', Wg';
    }

    /**
     * standardize: run the pivot loop over positions 0..K-1, then isStandard.
     * Over GF(2) the result stays row-equivalent to the input with the
     * logged column swaps applied; a 0/1 input ends in standard form exactly
     * when it has full rank, and otherwise ends with a zero row.  With
     * p != 2 the run stops where makeCurValOne is reached (completed false).
     */
    method Standardize() returns (completed: bool, ghost Rg: seq<seq<bool>>, ghost Wg: seq<seq<bool>>)
      requires Valid()
      modifies this, G
      ensures Valid() && G == old(G) && K == old(K) && N == old(N) && G0 == old(G0) && tracked == old(tracked)
      ensures old(OPList) <= OPList
      ensures completed ==> standardStatus == Some(IsStandardSpec(Mat(), K))
      ensures !completed ==> p != 2 && (standardStatus == old(standardStatus) || standardStatus.None?)
      ensures p == 2 ==> completed && Related(old(Mat()), Mat(), OPList[|old(OPList)|..], Rg, Wg, K, N)
      ensures p == 2 && Binary(old(Mat())) ==> Binary(Mat()) && (IsStandardSpec(Mat(), K) || HasZeroRow(Mat(), K, N))
      ensures p == 2 && Binary(old(Mat())) ==> standardStatus == Some(FullRank(Par(old(Mat())), K, N))
    {
      ghost var Gs := Mat();
      ghost var n0 := |OPList|;
      var step, cp;
      step, cp, Rg, Wg := PivotLoop(Gs, n0);
      if step == ModInvUnbound {
        return false, Rg, Wg;
      }
      var b := IsStandard();
      if p == 2 && Binary(Gs) {
        PivotOutcome(Gs, Mat(), OPList[n0..], Rg, Wg, K, N, cp, step == Exhausted);
      }
      return true, Rg, Wg;
    }

    /**
     * The pivot loop of standardize over positions 0..K-1: it stops early
     * when a position has no pivot (Exhausted) or makeCurValOne is reached.
     */
    method PivotLoop(ghost Gs: Matrix, ghost n0: nat)
      returns (step: PivotStep, cp: nat, ghost Rg: seq<seq<bool>>, ghost Wg: seq<seq<bool>>)
      requires Valid() && Gs == Mat() && n0 == |OPList|
      modifies this, G
      ensures Valid() && G == old(G) && K == old(K) && N == old(N) && G0 == old(G0) && tracked == old(tracked)
      ensures standardStatus == old(standardStatus) || standardStatus.None?
      ensures old(OPList) <= OPList
      ensures step == ModInvUnbound ==> p != 2
      ensures p == 2 ==> Related(Gs, Mat(), OPList[n0..], Rg, Wg, K, N)
      ensures p == 2 && Binary(Gs) ==>
                Binary(Mat()) &&
                (step == Exhausted ==> cp < K && IsZeroRow(Mat(), cp, N)) &&
                (step == Cleaned ==> UnitColumns(Mat(), K, K))
    {
      Rg, Wg := Identity(K), Identity(K);
      RelatedInitially(Gs, K, N);
      assert OPList[n0..] == [];
      cp := 0;
      step := Cleaned;
      while cp < K
        invariant 0 <= cp <= K && step == Cleaned
        invariant standardStatus == old(standardStatus) || standardStatus.None?
        invariant Valid() && G == old(G) && K == old(K) && N == old(N) && G0 == old(G0) && tracked == old(tracked)
        invariant old(OPList) <= OPList && n0 == |old(OPList)|
        invariant p == 2 ==> Related(Gs, Mat(), OPList[n0..], Rg, Wg, K, N)
        invariant p == 2 && Binary(Gs) ==> Binary(Mat()) && UnitColumns(Mat(), cp, K)
      {
        step, Rg, Wg := ReducePivot(cp, Gs, n0, Rg, Wg);
        if step != Cleaned {
          return;
        }
        cp := cp + 1;
      }
    }

    /**
     * getH: standardize first when the status is unknown; a standard matrix
     * [I | A] gives the check matrix [-A^T | I] mod p, any other gives None.
     */
    method GetH() returns (res: Result<Option<Matrix>, Raised>)
      requires Valid()
      modifies this, G
      ensures Valid() && G == old(G) && K == old(K) && N == old(N) && G0 == old(G0) && tracked == old(tracked)
      ensures old(OPList) <= OPList
      ensures old(standardStatus).Some? ==>
                Mat() == old(Mat()) && OPList == old(OPList) && standardStatus == old(standardStatus)
      ensures res.Err? <==> p != 2 && old(standardStatus).None? && standardStatus.None?
      ensures res.Ok? ==> standardStatus.Some? && (res.value.Some? <==> standardStatus == Some(true))
      ensures res.Ok? && res.value.Some? ==> IsStandardSpec(Mat(), K) && res.value.value == CheckMatrix(Mat(), K, N, p)
      ensures p == 2 && old(standardStatus).None? && Binary(old(Mat())) ==>
                res.Ok? && (res.value.Some? <==> FullRank(Par(old(Mat())), K, N))
    {
      if standardStatus.None? {
        var completed;
        ghost var Rg, Wg;
        completed, Rg, Wg := Standardize();
        if !completed {
          return Err(NameError);
        }
      }
      if standardStatus == Some(true) {
        var H := BuildCheckMatrix(G, K, N, p);
        return Ok(Some(H));
      }
      return Ok(None);
    }

    /**
     * isInSpace, as written: column i of X passes when H X has an all-even
     * column i.  The coordinates of X are not permuted by the logged column
     * swaps (see IsInCodeSpace for the corrected test).
     */
    method IsInSpace(X: Matrix, cols: nat) returns (res: Result<Option<seq<bool>>, Raised>)
      requires Valid() && IsMatrix(X, |X|, cols)
      modifies this, G
      ensures Valid() && G == old(G) && K == old(K) && N == old(N) && G0 == old(G0) && tracked == old(tracked)
      ensures old(OPList) <= OPList
      ensures old(standardStatus).Some? ==>
                Mat() == old(Mat()) && OPList == old(OPList) && standardStatus == old(standardStatus)
      ensures res.Err? <==> p != 2 && old(standardStatus).None? && standardStatus.None?
      ensures res.Ok? ==> (res.value.Some? <==> standardStatus == Some(true) && |X| == N)
      ensures res.Ok? && res.value.Some? ==>
                |res.value.value| == cols &&
                forall i :: 0 <= i < cols ==> res.value.value[i] == SyndromeZero(CheckMatrix(Mat(), K, N, p), Column(X, i), N)
      ensures p == 2 && old(standardStatus).None? && Binary(old(Mat())) && |X| == N ==>
                res.Ok? && (res.value.Some? <==> FullRank(Par(old(Mat())), K, N))
    {
      var H := GetH();
      if H.Err? {
        return Err(H.error);
      }
      if H.value.None? || |X| != N {
        return Ok(None);
      }
      var bits := Syndromes(H.value.value, X, N, cols);
      return Ok(Some(bits));
    }

    /**
     * The membership test isInSpace is meant to be: the coordinates of each
     * column of X are first put through the logged column swaps, so that
     * over GF(2), as long as the row operations stayed invertible, a column
     * passes exactly when its parities lie in the row space of the matrix
     * as last set.
     */
    method IsInCodeSpace(X: Matrix, cols: nat) returns (res: Result<Option<seq<bool>>, Raised>)
      requires Valid() && IsMatrix(X, |X|, cols)
      modifies this, G
      ensures Valid() && G == old(G) && K == old(K) && N == old(N) && G0 == old(G0) && tracked == old(tracked)
      ensures old(OPList) <= OPList
      ensures old(standardStatus).Some? ==>
                Mat() == old(Mat()) && OPList == old(OPList) && standardStatus == old(standardStatus)
      ensures res.Err? <==> p != 2 && old(standardStatus).None? && standardStatus.None?
      ensures res.Ok? ==> (res.value.Some? <==> standardStatus == Some(true) && |X| == N)
      ensures res.Ok? && res.value.Some? ==>
                |res.value.value| == cols &&
                forall i :: 0 <= i < cols ==>
                  res.value.value[i] == SyndromeZero(CheckMatrix(Mat(), K, N, p), ApplyColSwaps(Column(X, i), OPList), N)
      ensures res.Ok? && res.value.Some? && tracked && Binary(G0) ==>
                forall i :: 0 <= i < cols ==> res.value.value[i] == InRowSpace(ParVec(Column(X, i)), Par(G0), K, N)
      ensures p == 2 && old(standardStatus).None? && Binary(old(Mat())) && |X| == N ==>
                res.Ok? && (res.value.Some? <==> FullRank(Par(old(Mat())), K, N))
    {
      var H := GetH();
      if H.Err? {
        return Err(H.error);
      }
      if H.value.None? || |X| != N {
        return Ok(None);
      }
      var bits := PermutedSyndromes(H.value.value, X, OPList, N, cols);
      if tracked && Binary(G0) {
        CodeMembershipColumns(G0, Mat(), OPList, R, W, K, N, X, cols, bits);
      }
      return Ok(Some(bits));
    }
  }
}
