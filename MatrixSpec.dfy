/**
 * Integer matrices as values, the five elementary operations of the
 * generator-matrix engine as functions on them, the operation log, and the
 * column permutation that the logged column swaps describe.
 */
module MatrixSpec {
  import opened Gf2
  import opened Wrappers

  type Matrix = seq<seq<int>>

  ghost predicate IsMatrix(m: Matrix, rows: nat, cols: nat)
  {
    |m| == rows && forall i :: 0 <= i < rows ==> |m[i]| == cols
  }

  /** Every entry lies in [0, p): the reduced residues of GF(p). */
  ghost predicate Reduced(m: Matrix, p: int)
  {
    forall i, j :: 0 <= i < |m| && 0 <= j < |m[i]| ==> 0 <= m[i][j] < p
  }

  /** Every entry is 0 or 1. */
  ghost predicate Binary(m: Matrix)
  {
    Reduced(m, 2)
  }

  ghost function Transpose(m: Matrix, rows: nat, cols: nat): (t: Matrix)
    requires IsMatrix(m, rows, cols)
    ensures IsMatrix(t, cols, rows)
    ensures forall j, i :: 0 <= j < cols && 0 <= i < rows ==> t[j][i] == m[i][j]
  {
    seq(cols, j requires 0 <= j < cols => seq(rows, i requires 0 <= i < rows => m[i][j]))
  }

  /** Two matrices of one shape with equal entries are equal. */
  lemma MatrixExtensional(a: Matrix, b: Matrix, rows: nat, cols: nat)
    requires IsMatrix(a, rows, cols) && IsMatrix(b, rows, cols)
    requires forall i, j :: 0 <= i < rows && 0 <= j < cols ==> a[i][j] == b[i][j]
    ensures a == b
  {
    forall i | 0 <= i < rows
      ensures a[i] == b[i]
    {
      assert forall j :: 0 <= j < cols ==> a[i][j] == b[i][j];
    }
  }

  // ----- the elementary operations, as functions of the matrix -----

  ghost function SwapAt<T>(s: seq<T>, a: nat, b: nat): (r: seq<T>)
    requires a < |s| && b < |s|
    ensures |r| == |s| && multiset(r) == multiset(s)
    ensures forall k :: 0 <= k < |s| ==> r[k] == s[if k == a then b else if k == b then a else k]
  {
    s[a := s[b]][b := s[a]]
  }

  /** Op. 0: rows r1 and r2 trade places. */
  ghost function SwapRows(m: Matrix, r1: nat, r2: nat): Matrix
    requires r1 < |m| && r2 < |m|
  {
    SwapAt(m, r1, r2)
  }

  /** Op. 1: row r := (row r * s) mod p. */
  ghost function ScaleRow(m: Matrix, r: nat, s: int, p: int): Matrix
    requires r < |m| && p > 0
  {
    m[r := seq(|m[r]|, j requires 0 <= j < |m[r]| => (m[r][j] * s) % p)]
  }

  /** Op. 2: row r1 := (row r1 + s * row r2) mod p, with the old row r2. */
  ghost function AddRowTo(m: Matrix, r1: nat, r2: nat, s: int, p: int): Matrix
    requires r1 < |m| && r2 < |m| && |m[r1]| == |m[r2]| && p > 0
  {
    m[r1 := seq(|m[r1]|, j requires 0 <= j < |m[r1]| => (m[r1][j] + m[r2][j] * s) % p)]
  }

  /** Op. 3: columns c1 and c2 trade places. */
  ghost function SwapCols(m: Matrix, c1: nat, c2: nat): Matrix
    requires forall i :: 0 <= i < |m| ==> c1 < |m[i]| && c2 < |m[i]|
  {
    seq(|m|, i requires 0 <= i < |m| => SwapAt(m[i], c1, c2))
  }

  /** Op. 4: column c := (column c * s) mod p. */
  ghost function ScaleCol(m: Matrix, c: nat, s: int, p: int): Matrix
    requires (forall i :: 0 <= i < |m| ==> c < |m[i]|) && p > 0
  {
    seq(|m|, i requires 0 <= i < |m| => m[i][c := (m[i][c] * s) % p])
  }

  /** Swapping the same two rows twice restores the matrix. */
  lemma SwapRowsInvolution(m: Matrix, r1: nat, r2: nat)
    requires r1 < |m| && r2 < |m|
    ensures SwapRows(SwapRows(m, r1, r2), r1, r2) == m
  {
    var t := SwapRows(SwapRows(m, r1, r2), r1, r2);
    assert forall k :: 0 <= k < |m| ==> t[k] == m[k];
  }

  /** Swapping the same two columns twice restores the matrix. */
  lemma SwapColsInvolution(m: Matrix, c1: nat, c2: nat, rows: nat, cols: nat)
    requires IsMatrix(m, rows, cols) && c1 < cols && c2 < cols
    ensures SwapCols(SwapCols(m, c1, c2), c1, c2) == m
  {
    var t := SwapCols(SwapCols(m, c1, c2), c1, c2);
    forall i | 0 <= i < rows
      ensures t[i] == m[i]
    {
      assert forall k :: 0 <= k < cols ==> t[i][k] == m[i][k];
    }
  }

  /** Over GF(2) adding row r2 to row r1 twice restores a binary matrix. */
  lemma AddRowTwiceGf2(m: Matrix, r1: nat, r2: nat, rows: nat, cols: nat)
    requires IsMatrix(m, rows, cols) && Binary(m) && r1 < rows && r2 < rows && r1 != r2
    ensures AddRowTo(AddRowTo(m, r1, r2, 1, 2), r1, r2, 1, 2) == m
  {
    var t := AddRowTo(AddRowTo(m, r1, r2, 1, 2), r1, r2, 1, 2);
    assert forall j :: 0 <= j < cols ==> t[r1][j] == m[r1][j];
    MatrixExtensional(t, m, rows, cols);
  }

  /** Each row operation keeps reduced entries reduced. */
  lemma RowOperationsKeepReduced(m: Matrix, rows: nat, cols: nat, p: int, r1: nat, r2: nat, s: int)
    requires IsMatrix(m, rows, cols) && Reduced(m, p) && p > 0 && r1 < rows && r2 < rows
    ensures Reduced(SwapRows(m, r1, r2), p) && Reduced(ScaleRow(m, r1, s, p), p)
    ensures Reduced(AddRowTo(m, r1, r2, s, p), p)
  {
  }

  /** Each column operation, on any two columns of the matrix, keeps reduced entries reduced. */
  lemma ColumnOperationsKeepReduced(m: Matrix, rows: nat, cols: nat, p: int, c1: nat, c2: nat, s: int)
    requires IsMatrix(m, rows, cols) && Reduced(m, p) && p > 0 && c1 < cols && c2 < cols
    ensures Reduced(SwapCols(m, c1, c2), p) && Reduced(ScaleCol(m, c1, s, p), p)
  {
  }

  // ----- the operation log -----

  /** One entry of OPList; the source logs these as the lists [0, r1, r2], [1, row, s], ... */
  datatype Op =
    | SwitchRowsOp(r1: int, r2: int)
    | MultiRowOp(row: int, scalar: int)
    | AddRowOp(r1: int, r2: int, scalar: int)
    | SwitchColsOp(c1: int, c2: int)
    | MultiColOp(col: int, scalar: int)

  /** The list the source appends to OPList for an operation. */
  function Encode(op: Op): (e: seq<int>)
    ensures 3 <= |e| <= 4 && 0 <= e[0] <= 4
  {
    match op
    case SwitchRowsOp(r1, r2) => [0, r1, r2]
    case MultiRowOp(row, s) => [1, row, s]
    case AddRowOp(r1, r2, s) => [2, r1, r2, s]
    case SwitchColsOp(c1, c2) => [3, c1, c2]
    case MultiColOp(col, s) => [4, col, s]
  }

  /** Reads a logged list back; the inverse of Encode. */
  function Decode(e: seq<int>): Option<Op>
  {
    if |e| == 3 && e[0] == 0 then Some(SwitchRowsOp(e[1], e[2]))
    else if |e| == 3 && e[0] == 1 then Some(MultiRowOp(e[1], e[2]))
    else if |e| == 4 && e[0] == 2 then Some(AddRowOp(e[1], e[2], e[3]))
    else if |e| == 3 && e[0] == 3 then Some(SwitchColsOp(e[1], e[2]))
    else if |e| == 3 && e[0] == 4 then Some(MultiColOp(e[1], e[2]))
    else None
  }

  lemma DecodeEncode(op: Op)
    ensures Decode(Encode(op)) == Some(op)
  {
  }

  /** Every logged column swap names columns of an n-column matrix. */
  ghost predicate ColOpsIn(ops: seq<Op>, n: nat)
  {
    forall k :: 0 <= k < |ops| && ops[k].SwitchColsOp? ==> 0 <= ops[k].c1 < n && 0 <= ops[k].c2 < n
  }

  /** Where entry j of a row is taken from when `op` is applied to it. */
  ghost function SwapIndex(op: Op, j: nat): nat
  {
    if op.SwitchColsOp? && op.c1 >= 0 && op.c2 >= 0 then
      (if j == op.c1 then op.c2 as nat else if j == op.c2 then op.c1 as nat else j)
    else j
  }

  ghost function StepCol<T>(s: seq<T>, op: Op): (r: seq<T>)
    requires op.SwitchColsOp? ==> 0 <= op.c1 < |s| && 0 <= op.c2 < |s|
    ensures |r| == |s|
    ensures forall j :: 0 <= j < |s| ==> SwapIndex(op, j) < |s| && r[j] == s[SwapIndex(op, j)]
  {
    if op.SwitchColsOp? then SwapAt(s, op.c1, op.c2) else s
  }

  /**
   * The coordinates of s rearranged by every logged column swap, in log
   * order; other logged operations do not move coordinates.
   */
  ghost function ApplyColSwaps<T>(s: seq<T>, ops: seq<Op>): (r: seq<T>)
    requires ColOpsIn(ops, |s|)
    ensures |r| == |s| && multiset(r) == multiset(s)
  {
    if |ops| == 0 then s
    else
      var prev := ApplyColSwaps(s, ops[..|ops| - 1]);
      var r := StepCol(prev, ops[|ops| - 1]);
      assert multiset(r) == multiset(prev) by {
        if ops[|ops| - 1].SwitchColsOp? {
          assert r == SwapAt(prev, ops[|ops| - 1].c1, ops[|ops| - 1].c2);
        }
      }
      r
  }

  lemma ColOpsInPrefix(ops: seq<Op>, n: nat, k: nat)
    requires ColOpsIn(ops, n) && k <= |ops|
    ensures ColOpsIn(ops[..k], n)
  {
  }

  lemma ApplyColSwapsAppend<T>(s: seq<T>, ops: seq<Op>, op: Op)
    requires ColOpsIn(ops + [op], |s|)
    ensures ColOpsIn(ops, |s|)
    ensures op.SwitchColsOp? ==> 0 <= op.c1 < |s| && 0 <= op.c2 < |s|
    ensures ApplyColSwaps(s, ops + [op]) == StepCol(ApplyColSwaps(s, ops), op)
  {
    assert (ops + [op])[..|ops|] == ops;
    assert (ops + [op])[|ops|] == op;
  }

  /** Rearranging coordinates loses nothing: equal results come from equal inputs. */
  lemma {:induction false} ApplyColSwapsInjective<T>(x: seq<T>, y: seq<T>, ops: seq<Op>)
    requires |x| == |y| && ColOpsIn(ops, |x|)
    requires ApplyColSwaps(x, ops) == ApplyColSwaps(y, ops)
    ensures x == y
    decreases |ops|
  {
    if |ops| > 0 {
      var ops' := ops[..|ops| - 1];
      var op := ops[|ops| - 1];
      var px, py := ApplyColSwaps(x, ops'), ApplyColSwaps(y, ops');
      forall j | 0 <= j < |x|
        ensures px[j] == py[j]
      {
        if op.SwitchColsOp? {
          var back := if j == op.c1 then op.c2 as nat else if j == op.c2 then op.c1 as nat else j;
          assert SwapIndex(op, back) == j;
          assert StepCol(px, op)[back] == StepCol(py, op)[back];
        } else {
          assert StepCol(px, op)[j] == StepCol(py, op)[j];
        }
      }
      assert px == py;
      ApplyColSwapsInjective(x, y, ops');
    }
  }

  /** Column i of X, read down its rows. */
  ghost function Column(X: Matrix, i: nat): (c: seq<int>)
    requires forall j :: 0 <= j < |X| ==> i < |X[j]|
    ensures |c| == |X| && forall j :: 0 <= j < |X| ==> c[j] == X[j][i]
  {
    seq(|X|, j requires 0 <= j < |X| => X[j][i])
  }

  /** Rearranging the rows of a matrix keeps its shape. */
  lemma ColSwapsKeepShape(X: Matrix, ops: seq<Op>, n: nat, cols: nat)
    requires IsMatrix(X, n, cols) && ColOpsIn(ops, n)
    ensures IsMatrix(ApplyColSwaps(X, ops), n, cols)
  {
    var Y := ApplyColSwaps(X, ops);
    forall k | 0 <= k < n
      ensures |Y[k]| == cols
    {
      assert Y[k] in multiset(Y);
    }
  }

  /** Rearranging the rows of X rearranges each of its columns the same way. */
  lemma {:induction false} ColumnColSwaps(X: Matrix, ops: seq<Op>, n: nat, cols: nat, i: nat)
    requires IsMatrix(X, n, cols) && ColOpsIn(ops, n) && i < cols
    ensures IsMatrix(ApplyColSwaps(X, ops), n, cols)
    ensures Column(ApplyColSwaps(X, ops), i) == ApplyColSwaps(Column(X, i), ops)
    decreases |ops|
  {
    if |ops| > 0 {
      var ops' := ops[..|ops| - 1];
      ColumnColSwaps(X, ops', n, cols, i);
      var Y' := ApplyColSwaps(X, ops');
      var Y := ApplyColSwaps(X, ops);
      assert forall j :: 0 <= j < n ==> Y[j] == Y'[SwapIndex(ops[|ops| - 1], j)];
    }
  }

  /** The logged column swaps applied to x, one log entry at a time. */
  method PermuteCoordinates<T>(x: seq<T>, ops: seq<Op>) returns (y: seq<T>)
    requires ColOpsIn(ops, |x|)
    ensures y == ApplyColSwaps(x, ops)
  {
    y := x;
    var k := 0;
    while k < |ops|
      invariant 0 <= k <= |ops| && ColOpsIn(ops[..k], |x|)
      invariant y == ApplyColSwaps(x, ops[..k])
    {
      assert ops[..k + 1] == ops[..k] + [ops[k]];
      ApplyColSwapsAppend(x, ops[..k], ops[k]);
      if ops[k].SwitchColsOp? {
        var c1, c2 := ops[k].c1, ops[k].c2;
        y := y[c1 := y[c2]][c2 := y[c1]];
      }
      k := k + 1;
    }
    assert ops[..|ops|] == ops;
  }

  // ----- parities: the GF(2) reading of an integer matrix -----

  /** x is 1 in GF(2); Dafny's % is the floor remainder for divisor 2, as in Python. */
  ghost predicate Odd(x: int)
  {
    x % 2 == 1
  }

  ghost function ParVec(v: seq<int>): (b: seq<bool>)
    ensures |b| == |v| && forall j :: 0 <= j < |v| ==> b[j] == Odd(v[j])
  {
    seq(|v|, j requires 0 <= j < |v| => Odd(v[j]))
  }

  ghost function Par(m: Matrix): (b: seq<seq<bool>>)
    ensures |b| == |m| && forall i :: 0 <= i < |m| ==> b[i] == ParVec(m[i])
  {
    seq(|m|, i requires 0 <= i < |m| => ParVec(m[i]))
  }

  /** The matrix whose rows are those of M with the logged column swaps applied. */
  ghost function PermCols(M: seq<seq<bool>>, ops: seq<Op>, cols: nat): (P: seq<seq<bool>>)
    requires IsBMat(M, |M|, cols) && ColOpsIn(ops, cols)
    ensures IsBMat(P, |M|, cols)
    ensures forall i :: 0 <= i < |M| ==> P[i] == ApplyColSwaps(M[i], ops)
  {
    seq(|M|, i requires 0 <= i < |M| => ApplyColSwaps(M[i], ops))
  }

  /**
   * A combination of rows commutes with the column rearrangement: the
   * rearranged combination is the combination of the rearranged rows.
   */
  lemma {:induction false} CombinationCommutesWithColSwaps(e: seq<bool>, M: seq<seq<bool>>, y: seq<bool>,
                                                           ops: seq<Op>, rows: nat, cols: nat)
    requires rows <= |e| && IsBMat(M, rows, cols) && |y| == cols && ColOpsIn(ops, cols)
    requires forall j :: 0 <= j < cols ==> y[j] == Dot(e, M, j, rows)
    ensures forall j :: 0 <= j < cols ==> ApplyColSwaps(y, ops)[j] == Dot(e, PermCols(M, ops, cols), j, rows)
    decreases |ops|
  {
    if |ops| == 0 {
      forall j | 0 <= j < cols
        ensures ApplyColSwaps(y, ops)[j] == Dot(e, PermCols(M, ops, cols), j, rows)
      {
        DotCongruent(e, M, j, e, PermCols(M, ops, cols), j, rows);
      }
    } else {
      var ops' := ops[..|ops| - 1];
      var op := ops[|ops| - 1];
      CombinationCommutesWithColSwaps(e, M, y, ops', rows, cols);
      var P', P := PermCols(M, ops', cols), PermCols(M, ops, cols);
      forall j | 0 <= j < cols
        ensures ApplyColSwaps(y, ops)[j] == Dot(e, P, j, rows)
      {
        var sj := SwapIndex(op, j);
        assert forall i :: 0 <= i < rows ==> P[i][j] == P'[i][sj];
        DotCongruent(e, P', sj, e, P, j, rows);
      }
    }
  }
}
