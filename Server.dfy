/**
 * The server of the coded-caching network (CodedCaching/Server.py).
 *
 * Every file is split into C = Binomial(K, t) subfiles, one per t-subset
 * of the K users; column s + C * f stands for subfile s of file f.  The
 * placement matrix Z (K x N*C) says which user caches which subfile; the
 * delivery matrix X has one row per (t + 1)-subset of users, marking the
 * subfiles XOR-ed into the coded subfile sent to that group.
 */
module Server {
  import opened Combinatorics

  /** The column of subfile s of file f. */
  function Col(s: int, f: int, C: int): int
  {
    s + C * f
  }

  lemma ColBound(s: int, f: int, C: int, N: int)
    requires 0 <= s < C && 0 <= f < N
    ensures 0 <= Col(s, f, C) < N * C
  {
    assert C * f <= C * (N - 1);
    assert C * (N - 1) == N * C - C;
  }

  lemma MulStrict(C: int, a: int, b: int)
    requires C > 0
    ensures a < b <==> C * a < C * b
  {
  }

  /** Column indices name (subfile, file) pairs one-to-one. */
  lemma ColInjective(C: int)
    ensures forall s1, f1, s2, f2 :: 0 <= s1 < C && 0 <= s2 < C && Col(s1, f1, C) == Col(s2, f2, C) ==>
              s1 == s2 && f1 == f2
  {
    forall s1, f1, s2, f2 | 0 <= s1 < C && 0 <= s2 < C && Col(s1, f1, C) == Col(s2, f2, C)
      ensures s1 == s2 && f1 == f2
    {
      MulStrict(C, f1, f2 + 1);
      MulStrict(C, f2, f1 + 1);
    }
  }

  /** Subfile s of file f sits at a column whose remainder and quotient by C give s and f back. */
  lemma ColParts(s: int, f: int, C: int)
    requires 0 <= s < C
    ensures Col(s, f, C) % C == s && Col(s, f, C) / C == f
  {
    var col := Col(s, f, C);
    ColInjective(C);
    assert col == Col(col % C, col / C, C);
  }

  lemma NoColumnsWithoutSubfiles(N: int, C: int)
    ensures C == 0 ==> N * C == 0
  {
  }

  /** Every column is one subfile of one file. */
  lemma ColDecompose(col: int, C: int, N: int)
    requires C > 0 && 0 <= col < N * C
    ensures 0 <= col % C < C && 0 <= col / C < N && col == Col(col % C, col / C, C)
  {
    MulStrict(C, col / C, N);
  }

  // ----- placement -----

  /** The t-subsets of the users, in itertools.combinations order: subfile s is cached by Groups(K, t)[s]. */
  function Groups(K: nat, t: nat): (r: seq<seq<int>>)
    ensures |r| == Binomial(K, t)
    ensures forall s :: 0 <= s < |r| ==> |r[s]| == t && IncreasingIn(r[s], 0, K)
  {
    CombsLength(0, K, t);
    CombsIncreasing(0, K, t);
    Combs(0, K, t)
  }

  /**
   * The standard placement: user u caches column col exactly when u is in
   * the t-subset of that column's subfile, for every file alike.
   */
  ghost function StandardZ(K: nat, N: nat, t: nat): (Z: seq<seq<bool>>)
    ensures |Z| == K && forall u :: 0 <= u < K ==> |Z[u]| == N * Binomial(K, t)
  {
    var C := Binomial(K, t);
    seq(K, u => seq(N * C, col => C > 0 && u in Groups(K, t)[col % C]))
  }

  lemma StandardZEntry(K: nat, N: nat, t: nat, u: int, s: int, f: int)
    requires 0 <= u < K && 0 <= s < Binomial(K, t) && 0 <= f < N
    ensures Col(s, f, Binomial(K, t)) < N * Binomial(K, t)
    ensures StandardZ(K, N, t)[u][Col(s, f, Binomial(K, t))] == (u in Groups(K, t)[s])
  {
    var C := Binomial(K, t);
    ColBound(s, f, C, N);
    assert (s + C * f) % C == s by {
      ColDecompose(s + C * f, C, N);
      ColInjective(C);
    }
  }

  /** Each subfile is cached by exactly t users. */
  lemma StandardZColumnCount(K: nat, N: nat, t: nat, col: int)
    requires 0 <= col < N * Binomial(K, t)
    ensures |set u | 0 <= u < K && StandardZ(K, N, t)[u][col]| == t
  {
    var C := Binomial(K, t);
    var Z := StandardZ(K, N, t);
    ColDecompose(col, C, N);
    var c := Groups(K, t)[col % C];
    assert (set u | 0 <= u < K && Z[u][col]) == (set x | x in c);
    DistinctCard(c);
  }

  // ----- delivery -----

  /** Column c lies in the block of file d (clipped to the matrix by the column bound). */
  predicate InBlock(c: int, d: int, C: int)
  {
    d * C <= c < d * C + C
  }

  /** Every member of the group is a row of Z, and c is a column of each. */
  predicate Covers(Z: seq<seq<bool>>, group: seq<int>, c: int)
  {
    forall j :: 0 <= j < |group| ==> 0 <= group[j] < |Z| && 0 <= c < |Z[group[j]]|
  }

  /** How many members of the group cache column c. */
  function Holders(Z: seq<seq<bool>>, group: seq<int>, c: int): nat
    requires Covers(Z, group, c)
  {
    if |group| == 0 then 0
    else
      var init := group[..|group| - 1];
      assert forall j :: 0 <= j < |init| ==> init[j] == group[j];
      Holders(Z, init, c) + (if Z[group[|group| - 1]][c] then 1 else 0)
  }

  /** Member j of the group demands the file of column c and does not cache it. */
  ghost predicate Wants(Z: seq<seq<bool>>, D: seq<int>, group: seq<int>, j: int, c: int, C: int)
    requires 0 <= j < |group| && 0 <= group[j] < |Z| && group[j] < |D| && 0 <= c < |Z[group[j]]|
  {
    InBlock(c, D[group[j]], C) && !Z[group[j]][c]
  }

  ghost predicate GroupIn(Z: seq<seq<bool>>, D: seq<int>, group: seq<int>, c: int)
  {
    0 <= c && forall j :: 0 <= j < |group| ==> 0 <= group[j] < |Z| && group[j] < |D| && c < |Z[group[j]]|
  }

  /**
   * Bit c of the group's coded subfile: at least t members cache it, and
   * some member demands its file without caching it.
   */
  ghost predicate XBit(Z: seq<seq<bool>>, D: seq<int>, group: seq<int>, c: int, t: int, C: int)
    requires GroupIn(Z, D, group, c)
  {
    Holders(Z, group, c) >= t && exists j :: 0 <= j < |group| && Wants(Z, D, group, j, c, C)
  }

  lemma {:induction false} HoldersAtMost(Z: seq<seq<bool>>, group: seq<int>, c: int)
    requires Covers(Z, group, c)
    ensures Holders(Z, group, c) <= |group|
  {
    if |group| > 0 {
      var init := group[..|group| - 1];
      assert forall k :: 0 <= k < |init| ==> init[k] == group[k];
      HoldersAtMost(Z, init, c);
    }
  }

  lemma {:induction false} HoldersMissOne(Z: seq<seq<bool>>, group: seq<int>, c: int, j: int)
    requires Covers(Z, group, c)
    requires 0 <= j < |group| && !Z[group[j]][c]
    ensures Holders(Z, group, c) <= |group| - 1
  {
    var n := |group| - 1;
    assert forall k :: 0 <= k < n ==> group[..n][k] == group[k];
    if j == n {
      HoldersAtMost(Z, group[..n], c);
    } else {
      HoldersMissOne(Z, group[..n], c, j);
    }
  }

  /** Two members without column c leave at most |group| - 2 holders. */
  lemma {:induction false} HoldersMissTwo(Z: seq<seq<bool>>, group: seq<int>, c: int, j1: int, j2: int)
    requires Covers(Z, group, c)
    requires 0 <= j1 < j2 < |group| && !Z[group[j1]][c] && !Z[group[j2]][c]
    ensures Holders(Z, group, c) <= |group| - 2
  {
    var n := |group| - 1;
    assert forall k :: 0 <= k < n ==> group[..n][k] == group[k];
    if j2 == n {
      HoldersMissOne(Z, group[..n], c, j1);
    } else {
      HoldersMissTwo(Z, group[..n], c, j1, j2);
    }
  }

  /**
   * Why a (t + 1)-group can decode its coded subfile: every bit set in the
   * row is wanted by exactly one member and cached by all the others, who
   * can therefore cancel it out.
   */
  lemma XBitSingleWanter(Z: seq<seq<bool>>, D: seq<int>, group: seq<int>, c: int, t: int, C: int)
    requires GroupIn(Z, D, group, c) && |group| == t + 1 && XBit(Z, D, group, c, t, C)
    ensures exists j :: 0 <= j < |group| && InBlock(c, D[group[j]], C) && !Z[group[j]][c] &&
              forall j' :: 0 <= j' < |group| && j' != j ==> Z[group[j']][c]
  {
    var j :| 0 <= j < |group| && Wants(Z, D, group, j, c, C);
    forall j' | 0 <= j' < |group| && j' != j
      ensures Z[group[j']][c]
    {
      if !Z[group[j']][c] {
        if j < j' {
          HoldersMissTwo(Z, group, c, j, j');
        } else {
          HoldersMissTwo(Z, group, c, j', j);
        }
      }
    }
  }

  /** groupList's entry: the group, or the group shifted by one when files are shown as letters. */
  function Shown(group: seq<int>, fileId2Alphabet: bool): (r: seq<int>)
    ensures |r| == |group|
    ensures forall j :: 0 <= j < |group| ==> r[j] == group[j] + (if fileId2Alphabet then 1 else 0)
  {
    if fileId2Alphabet then seq(|group|, j requires 0 <= j < |group| => group[j] + 1) else group
  }

  ghost function Grid(a: array2<bool>): (g: seq<seq<bool>>)
    reads a
    ensures |g| == a.Length0 && forall i :: 0 <= i < a.Length0 ==> |g[i]| == a.Length1
    ensures forall i, j :: 0 <= i < a.Length0 && 0 <= j < a.Length1 ==> g[i][j] == a[i, j]
  {
    seq(a.Length0, i requires 0 <= i < a.Length0 reads a => seq(a.Length1, j requires 0 <= j < a.Length1 reads a => a[i, j]))
  }

  /** _generateZ_std's loops: for every t-subset (subfile index), every member, every file, set the bit. */
  method StandardPlacement(K: nat, N: nat, t: nat) returns (z: array2<bool>)
    ensures fresh(z) && z.Length0 == K && z.Length1 == N * Binomial(K, t)
    ensures Grid(z) == StandardZ(K, N, t)
  {
    var C := Binomial(K, t);
    var userLsts := Groups(K, t);
    z := new bool[K, N * C]((_, _) => false);
    var subfileIdx := 0;
    while subfileIdx < |userLsts|
      invariant 0 <= subfileIdx <= |userLsts| && z.Length0 == K && z.Length1 == N * C
      invariant forall u, col :: 0 <= u < K && 0 <= col < N * C ==>
                  z[u, col] == (col % C < subfileIdx && u in userLsts[col % C])
    {
      var userLst := userLsts[subfileIdx];
      var j := 0;
      while j < |userLst|
        invariant 0 <= j <= |userLst|
        invariant forall u, col :: 0 <= u < K && 0 <= col < N * C ==>
                    z[u, col] == ((col % C < subfileIdx && u in userLsts[col % C]) ||
                                  (col % C == subfileIdx && u in userLst[..j]))
      {
        CacheInEveryFile(z, userLst[j], subfileIdx, N, C);
        assert userLst[..j + 1] == userLst[..j] + [userLst[j]];
        j := j + 1;
      }
      assert userLst[..|userLst|] == userLst;
      subfileIdx := subfileIdx + 1;
    }
    forall u, col | 0 <= u < K && 0 <= col < N * C
      ensures Grid(z)[u][col] == StandardZ(K, N, t)[u][col]
    {
      assert C != 0 by { NoColumnsWithoutSubfiles(N, C); }
      ColDecompose(col, C, N);
    }
    assert forall u :: 0 <= u < K ==> Grid(z)[u] == StandardZ(K, N, t)[u];
  }

  /** The innermost loop: user caches subfile s of every file. */
  method CacheInEveryFile(z: array2<bool>, user: int, s: int, N: nat, C: nat)
    requires 0 <= user < z.Length0 && 0 <= s < C && z.Length1 == N * C
    modifies z
    ensures forall u, col :: 0 <= u < z.Length0 && 0 <= col < z.Length1 ==>
              z[u, col] == (old(z[u, col]) || (u == user && col % C == s))
  {
    var fileIdx := 0;
    while fileIdx < N
      invariant 0 <= fileIdx <= N
      invariant forall u, col :: 0 <= u < z.Length0 && 0 <= col < z.Length1 ==>
                  z[u, col] == (old(z[u, col]) || (u == user && col % C == s && col / C < fileIdx))
    {
      ColBound(s, fileIdx, C, N);
      ColParts(s, fileIdx, C);
      z[user, Col(s, fileIdx, C)] := true;
      forall u, col | 0 <= u < z.Length0 && 0 <= col < z.Length1
        ensures z[u, col] == (old(z[u, col]) || (u == user && col % C == s && col / C < fileIdx + 1))
      {
        ColDecompose(col, C, N);
      }
      fileIdx := fileIdx + 1;
    }
    forall u, col | 0 <= u < z.Length0 && 0 <= col < z.Length1
      ensures z[u, col] == (old(z[u, col]) || (u == user && col % C == s))
    {
      ColDecompose(col, C, N);
    }
  }

  class Server {
    var M: real
    var N: nat
    var K: nat
    var t: nat
    var numOfSubfile: nat
    var numOfCodedSubfiles: nat
    var Z: array2?<bool>
    var placementDone: bool
    var fileId2Alphabet: bool

    ghost predicate Valid()
      reads this
    {
      numOfSubfile == Binomial(K, t) && numOfCodedSubfiles == Binomial(K, t + 1) &&
      (placementDone ==> Z != null && Z.Length0 == K && Z.Length1 == N * numOfSubfile)
    }

    /** A server for K users and N files, each file split into C(K, t) subfiles. */
    constructor (M: real, N: nat, K: nat, t: nat, fileId2Alphabet: bool)
      ensures Valid()
      ensures this.M == M && this.N == N && this.K == K && this.t == t
      ensures numOfSubfile == Binomial(K, t) && numOfCodedSubfiles == Binomial(K, t + 1)
      ensures Z == null && !placementDone && this.fileId2Alphabet == fileId2Alphabet
    {
      this.M := M;
      this.N := N;
      this.K := K;
      this.t := t;
      numOfSubfile := Binomial(K, t);
      numOfCodedSubfiles := Binomial(K, t + 1);
      Z := null;
      placementDone := false;
      this.fileId2Alphabet := fileId2Alphabet;
    }

    /** generateZ with the standard (unpermuted) placement. */
    method GenerateZ() returns (placement: array2<bool>)
      requires Valid()
      modifies this
      ensures Valid() && placementDone && placement == Z && fresh(Z)
      ensures Grid(Z) == StandardZ(K, N, t)
      ensures M == old(M) && N == old(N) && K == old(K) && t == old(t) && fileId2Alphabet == old(fileId2Alphabet)
      ensures numOfSubfile == old(numOfSubfile) && numOfCodedSubfiles == old(numOfCodedSubfiles)
    {
      var z := StandardPlacement(K, N, t);
      Z := z;
      placementDone := true;
      placement := z;
    }

    /**
     * generateX for the demand vector D (user u wants file D[u]): one row
     * per (t + 1)-group of users, in itertools.combinations order.
     */
    method GenerateX(D: seq<int>) returns (X: array2<bool>, groupList: seq<seq<int>>)
      requires Valid() && placementDone
      requires t + 1 > K || |D| >= K
      requires forall u :: 0 <= u < |D| ==> D[u] >= 0
      ensures fresh(X) && X.Length0 == numOfCodedSubfiles && X.Length1 == N * numOfSubfile
      ensures |groupList| == numOfCodedSubfiles
      ensures forall g :: 0 <= g < numOfCodedSubfiles ==>
                groupList[g] == Shown(Groups(K, t + 1)[g], fileId2Alphabet)
      ensures forall g, c :: 0 <= g < numOfCodedSubfiles && 0 <= c < N * numOfSubfile ==>
                GroupIn(Grid(Z), D, Groups(K, t + 1)[g], c) &&
                X[g, c] == XBit(Grid(Z), D, Groups(K, t + 1)[g], c, t, numOfSubfile)
    {
      var C := numOfSubfile;
      var cols := N * C;
      var groups := Groups(K, t + 1);
      X := new bool[numOfCodedSubfiles, cols]((_, _) => false);
      groupList := [];
      var codedSubfileIdx := 0;
      while codedSubfileIdx < |groups|
        invariant 0 <= codedSubfileIdx <= |groups| && |groupList| == codedSubfileIdx
        invariant forall g :: 0 <= g < codedSubfileIdx ==> groupList[g] == Shown(groups[g], fileId2Alphabet)
        invariant forall g, c :: 0 <= g < codedSubfileIdx && 0 <= c < cols ==>
                    GroupIn(Grid(Z), D, groups[g], c) && X[g, c] == XBit(Grid(Z), D, groups[g], c, t, C)
        invariant forall g, c :: codedSubfileIdx <= g < |groups| && 0 <= c < cols ==> !X[g, c]
      {
        var group := groups[codedSubfileIdx];
        CodedSubfileRow(X, codedSubfileIdx, D, group);
        groupList := groupList + [Shown(group, fileId2Alphabet)];
        codedSubfileIdx := codedSubfileIdx + 1;
      }
    }

    /** setPrintoutMode: only the display flag changes. */
    method SetPrintoutMode(fileId2Alphabet: bool)
      modifies this`fileId2Alphabet
      ensures this.fileId2Alphabet == fileId2Alphabet
    {
      this.fileId2Alphabet := fileId2Alphabet;
    }

    /** One group's row of the delivery matrix: count holders, mask useless columns, vote. */
    method CodedSubfileRow(X: array2<bool>, g: nat, D: seq<int>, group: seq<int>)
      requires Valid() && placementDone && X != Z
      requires g < X.Length0 && X.Length1 == N * numOfSubfile
      requires forall j :: 0 <= j < |group| ==> 0 <= group[j] < K && group[j] < |D| && D[group[j]] >= 0
      requires forall c :: 0 <= c < X.Length1 ==> !X[g, c]
      modifies X
      ensures forall i, c :: 0 <= i < X.Length0 && 0 <= c < X.Length1 && i != g ==> X[i, c] == old(X[i, c])
      ensures forall c :: 0 <= c < X.Length1 ==>
                GroupIn(Grid(Z), D, group, c) && X[g, c] == XBit(Grid(Z), D, group, c, t, numOfSubfile)
    {
      var C := numOfSubfile;
      var cols := N * C;
      var sums := ColumnSums(group);
      var threshold := t;
      var recoverable := seq(cols, c requires 0 <= c < cols => sums[c] >= threshold);
      var useless := UselessColumns(D, group, C, cols);
      recoverable := seq(cols, c requires 0 <= c < cols => recoverable[c] && !useless[c]);
      Vote(X, g, D, group, recoverable);
    }

    /** Z_select_sum: for every column, how many members of the group cache it. */
    method ColumnSums(group: seq<int>) returns (sums: seq<nat>)
      requires Valid() && placementDone
      requires forall j :: 0 <= j < |group| ==> 0 <= group[j] < K
      ensures |sums| == N * numOfSubfile
      ensures forall c :: 0 <= c < |sums| ==> sums[c] == Holders(Grid(Z), group, c)
    {
      var cols := N * numOfSubfile;
      sums := seq(cols, c => 0);
      var j := 0;
      while j < |group|
        invariant 0 <= j <= |group| && |sums| == cols
        invariant forall c :: 0 <= c < cols ==> sums[c] == Holders(Grid(Z), group[..j], c)
      {
        var row := group[j];
        var c := 0;
        while c < cols
          invariant 0 <= c <= cols && |sums| == cols
          invariant forall c' :: 0 <= c' < cols ==>
                      sums[c'] == Holders(Grid(Z), group[..j], c') + (if c' < c && Z[row, c'] then 1 else 0)
        {
          if Z[row, c] {
            sums := sums[c := sums[c] + 1];
          }
          c := c + 1;
        }
        assert group[..j + 1][..j] == group[..j];
        j := j + 1;
      }
      assert group[..|group|] == group;
    }

    /** uselessCols: the columns outside the block of every member's demanded file. */
    method UselessColumns(D: seq<int>, group: seq<int>, C: nat, cols: nat) returns (useless: seq<bool>)
      requires forall j :: 0 <= j < |group| ==> 0 <= group[j] < |D| && D[group[j]] >= 0
      ensures |useless| == cols
      ensures forall c :: 0 <= c < cols ==>
                (useless[c] <==> forall j :: 0 <= j < |group| ==> !InBlock(c, D[group[j]], C))
    {
      useless := seq(cols, c => true);
      var j := 0;
      while j < |group|
        invariant 0 <= j <= |group| && |useless| == cols
        invariant forall c :: 0 <= c < cols ==>
                    (useless[c] <==> forall j' :: 0 <= j' < j ==> !InBlock(c, D[group[j']], C))
      {
        var startCol := D[group[j]] * C;
        var c := startCol;
        while c < startCol + C && c < cols
          invariant startCol <= c <= startCol + C && |useless| == cols
          invariant forall c' :: 0 <= c' < cols ==>
                      (useless[c'] <==> (forall j' :: 0 <= j' < j ==> !InBlock(c', D[group[j']], C)) &&
                                        !(startCol <= c' < c))
        {
          useless := useless[c := false];
          c := c + 1;
        }
        assert forall c' :: 0 <= c' < cols ==> (startCol <= c' < c <==> InBlock(c', D[group[j]], C));
        j := j + 1;
      }
    }

    /**
     * The vote: every member ORs into the group's row, over its demanded
     * file's block, the recoverable subfiles it does not cache.
     */
    method Vote(X: array2<bool>, g: nat, D: seq<int>, group: seq<int>, recoverable: seq<bool>)
      requires Valid() && placementDone
      requires g < X.Length0 && X.Length1 == N * numOfSubfile && |recoverable| == X.Length1
      requires forall j :: 0 <= j < |group| ==> 0 <= group[j] < K && group[j] < |D| && D[group[j]] >= 0
      requires forall c :: 0 <= c < X.Length1 ==> !X[g, c]
      requires forall c :: 0 <= c < X.Length1 ==>
                 recoverable[c] == (Holders(Grid(Z), group, c) >= t &&
                                    exists j :: 0 <= j < |group| && InBlock(c, D[group[j]], numOfSubfile))
      requires X != Z
      modifies X
      ensures forall i, c :: 0 <= i < X.Length0 && 0 <= c < X.Length1 && i != g ==> X[i, c] == old(X[i, c])
      ensures forall c :: 0 <= c < X.Length1 ==>
                GroupIn(Grid(Z), D, group, c) && X[g, c] == XBit(Grid(Z), D, group, c, t, numOfSubfile)
    {
      ghost var Zg := Grid(Z);
      var C := numOfSubfile;
      var cols := X.Length1;
      var j := 0;
      while j < |group|
        invariant 0 <= j <= |group|
        invariant forall i, c :: 0 <= i < X.Length0 && 0 <= c < cols && i != g ==> X[i, c] == old(X[i, c])
        invariant forall c :: 0 <= c < cols ==>
                    (X[g, c] <==> recoverable[c] && exists j' :: 0 <= j' < j && Wants(Zg, D, group, j', c, C))
      {
        VoteBlock(X, g, Z, group[j], D[group[j]] * C, C, recoverable);
        forall c | 0 <= c < cols
          ensures X[g, c] <==> recoverable[c] && exists j' :: 0 <= j' < j + 1 && Wants(Zg, D, group, j', c, C)
        {
          if recoverable[c] && Wants(Zg, D, group, j, c, C) {
            assert 0 <= j < j + 1;
          }
        }
        j := j + 1;
      }
      assert Grid(Z) == Zg;
    }
  }

  /** One member's vote: OR into row g, over its block, the recoverable columns it does not cache. */
  method VoteBlock(X: array2<bool>, g: nat, z: array2<bool>, row: nat, startCol: int, C: nat, recoverable: seq<bool>)
    requires X != z && g < X.Length0 && row < z.Length0
    requires z.Length1 == X.Length1 == |recoverable|
    modifies X
    ensures forall i, c :: 0 <= i < X.Length0 && 0 <= c < X.Length1 && i != g ==> X[i, c] == old(X[i, c])
    ensures forall c :: 0 <= c < X.Length1 ==>
              X[g, c] == (old(X[g, c]) || (recoverable[c] && startCol <= c < startCol + C && !z[row, c]))
  {
    var c := if startCol < 0 then 0 else startCol;
    while c < startCol + C && c < X.Length1
      invariant 0 <= c && (startCol <= c || c == 0) && (c <= startCol + C || c == 0)
      invariant forall i, c' :: 0 <= i < X.Length0 && 0 <= c' < X.Length1 && i != g ==> X[i, c'] == old(X[i, c'])
      invariant forall c' :: 0 <= c' < X.Length1 ==>
                  X[g, c'] == (old(X[g, c']) || (recoverable[c'] && startCol <= c' < c && !z[row, c']))
    {
      X[g, c] := X[g, c] || (recoverable[c] && !z[row, c]);
      c := c + 1;
    }
  }
}
