/**
 * The network front end (CodedCaching/Network.py): the integrality check
 * on t and the subfile counts made by the constructor, the enumeration of
 * every demand vector (allD), and the text rendering of a server
 * transmission (printableServerTransmission).
 */
module Network {
  import opened Wrappers
  import opened Combinatorics
  import opened Server

  datatype Raised = ZeroDivisionError | NotAnInteger

  // ----- the constructor's t and counts -----

  /** t as given, or its default M * K / N (which divides by N). */
  function ChooseT(M: real, N: int, K: int, t: Option<real>): (r: Result<real, Raised>)
    ensures r.Err? <==> t.None? && N == 0
    ensures r.Err? ==> r.error == ZeroDivisionError
    ensures t.Some? ==> r == Ok(t.value)
    ensures t.None? && N != 0 ==> r.Ok? && r.value * (N as real) == M * (K as real)
  {
    match t
    case Some(v) => Ok(v)
    case None => if N == 0 then Err(ZeroDivisionError) else Ok(M * (K as real) / (N as real))
  }

  function AsReal(n: int): real
  {
    n as real
  }

  /** The integrality test: t must be a whole number, and then it is used as one. */
  function IntegralT(x: real): (r: Result<int, Raised>)
    ensures r.Ok? <==> exists n: int :: AsReal(n) == x
    ensures r.Ok? ==> r.value as real == x
    ensures r.Err? ==> r.error == NotAnInteger
  {
    if x == x.Floor as real then
      assert AsReal(x.Floor) == x;
      Ok(x.Floor)
    else
      assert forall n: int :: AsReal(n) != x;
      Err(NotAnInteger)
  }

  datatype Params = Params(t: int, numOfSubfile: nat, numOfCodedSubfiles: nat)

  /** What the constructor computes from (M, N, K, t), or the exception it raises. */
  function Setup(M: real, N: int, K: int, t: Option<real>): (r: Result<Params, Raised>)
    ensures r == Err(ZeroDivisionError) <==> t.None? && N == 0
    ensures r == Err(NotAnInteger) <==>
              ChooseT(M, N, K, t).Ok? && !exists n: int :: AsReal(n) == ChooseT(M, N, K, t).value
    ensures r.Ok? ==> (t.Some? ==> r.value.t as real == t.value) &&
                      (t.None? ==> (r.value.t as real) * (N as real) == M * (K as real))
    ensures r.Ok? ==> r.value.numOfSubfile == Binomial(K, r.value.t) &&
                      r.value.numOfCodedSubfiles == Binomial(K, r.value.t + 1)
  {
    match ChooseT(M, N, K, t)
    case Err(e) => Err(e)
    case Ok(tv) =>
      match IntegralT(tv)
      case Err(e) => Err(e)
      case Ok(ti) => Ok(Params(ti, Binomial(K, ti), Binomial(K, ti + 1)))
  }

  // ----- demand vectors as base-N numbers -----

  function Power(b: int, e: nat): int
  {
    if e == 0 then 1 else Power(b, e - 1) * b
  }

  /** [x] * k */
  function Rep(x: int, k: nat): (r: seq<int>)
    ensures |r| == k && forall i :: 0 <= i < k ==> r[i] == x
  {
    seq(k, _ => x)
  }

  /** Every entry is a file index in [0, N). */
  ghost predicate Digits(d: seq<int>, N: int)
  {
    forall i :: 0 <= i < |d| ==> 0 <= d[i] < N
  }

  /** The vector read as a base-N number, most significant position first. */
  function Value(d: seq<int>, N: int): int
  {
    if |d| == 0 then 0 else Value(d[..|d| - 1], N) * N + d[|d| - 1]
  }

  lemma ValueSnoc(d: seq<int>, y: int, N: int)
    ensures Value(d + [y], N) == Value(d, N) * N + y
  {
    assert (d + [y])[..|d|] == d;
  }

  lemma MulLe(a: int, b: int, N: int)
    requires a <= b && N >= 0
    ensures a * N <= b * N
  {
  }

  lemma {:induction false} PowerPositive(N: int, k: nat)
    requires N >= 1 || k == 0
    ensures Power(N, k) >= 1
  {
    if k > 0 {
      PowerPositive(N, k - 1);
      MulLe(1, Power(N, k - 1), N);
    }
  }

  /** A vector of k file indices is a number in [0, N^k). */
  lemma {:induction false} ValueBound(d: seq<int>, N: int)
    requires N >= 1 && Digits(d, N)
    ensures 0 <= Value(d, N) < Power(N, |d|)
  {
    if |d| > 0 {
      var init := d[..|d| - 1];
      ValueBound(init, N);
      BoundStep(Value(init, N), Power(N, |init|), d[|d| - 1], N);
    }
  }

  lemma BoundStep(v: int, P: int, y: int, N: int)
    requires 0 <= v < P && 0 <= y < N
    ensures 0 <= v * N + y < P * N
  {
    MulLe(0, v, N);
    MulLe(v + 1, P, N);
  }

  /** The all-zero vector is 0 and the all-(N - 1) vector is N^k - 1. */
  lemma {:induction false} ValueRep(N: int, k: nat)
    ensures Value(Rep(0, k), N) == 0
    ensures Value(Rep(N - 1, k), N) == Power(N, k) - 1
  {
    if k > 0 {
      ValueRep(N, k - 1);
      assert Rep(0, k)[..k - 1] == Rep(0, k - 1);
      assert Rep(N - 1, k)[..k - 1] == Rep(N - 1, k - 1);
    }
  }

  /** Base-N digits and the quotient are unique. */
  lemma DigitSplit(a: int, b: int, y: int, y': int, N: int)
    requires 0 <= y < N && 0 <= y' < N && a * N + y == b * N + y'
    ensures a == b && y == y'
  {
    if a < b {
      MulLe(a + 1, b, N);
    } else if b < a {
      MulLe(b + 1, a, N);
    }
  }

  /** Two vectors of the same length with the same value are the same vector. */
  lemma {:induction false} ValueInjective(d: seq<int>, e: seq<int>, N: int)
    requires |d| == |e| && Digits(d, N) && Digits(e, N) && Value(d, N) == Value(e, N)
    ensures d == e
  {
    if |d| > 0 {
      var n := |d| - 1;
      DigitSplit(Value(d[..n], N), Value(e[..n], N), d[n], e[n], N);
      ValueInjective(d[..n], e[..n], N);
      assert d == d[..n] + [d[n]] && e == e[..n] + [e[n]];
    }
  }

  /**
   * One step of allD: bumping the position x that precedes a run of m
   * maximal entries, and zeroing that run, adds one.
   */
  lemma {:induction false} ValueSucc(p: seq<int>, x: int, m: nat, N: int)
    ensures Value(p + [x] + Rep(N - 1, m), N) + 1 == Value(p + [x + 1] + Rep(0, m), N)
  {
    if m == 0 {
      assert p + [x] + Rep(N - 1, 0) == p + [x];
      assert p + [x + 1] + Rep(0, 0) == p + [x + 1];
      ValueSnoc(p, x, N);
      ValueSnoc(p, x + 1, N);
    } else {
      var A := p + [x] + Rep(N - 1, m - 1);
      var B := p + [x + 1] + Rep(0, m - 1);
      ValueSucc(p, x, m - 1, N);
      assert p + [x] + Rep(N - 1, m) == A + [N - 1];
      assert p + [x + 1] + Rep(0, m) == B + [0];
      ValueSnoc(A, N - 1, N);
      ValueSnoc(B, 0, N);
      assert (Value(A, N) + 1) * N == Value(A, N) * N + N;
    }
  }

  /** The value read from the front: the first position weighs N^(k-1). */
  lemma {:induction false} ValueFront(d: seq<int>, N: int)
    requires |d| > 0
    ensures Value(d, N) == d[0] * Power(N, |d| - 1) + Value(d[1..], N)
  {
    var n := |d|;
    if n == 1 {
      assert d[..0] == [] && d[1..] == [];
    } else {
      var init := d[..n - 1];
      ValueFront(init, N);
      assert d[1..] == init[1..] + [d[n - 1]];
      ValueSnoc(init[1..], d[n - 1], N);
      var P := Power(N, n - 2);
      assert (d[0] * P + Value(init[1..], N)) * N == d[0] * (P * N) + Value(init[1..], N) * N;
    }
  }

  /** A smaller first position means a smaller value, whatever follows. */
  lemma ValueFrontOrder(a: seq<int>, b: seq<int>, N: int)
    requires N >= 1 && |a| == |b| > 0 && Digits(a, N) && Digits(b, N) && a[0] < b[0]
    ensures Value(a, N) < Value(b, N)
  {
    ValueFront(a, N);
    ValueFront(b, N);
    assert Digits(a[1..], N) && Digits(b[1..], N);
    ValueBound(a[1..], N);
    ValueBound(b[1..], N);
    FrontStep(a[0], b[0], Power(N, |a| - 1), Value(a[1..], N), Value(b[1..], N));
  }

  lemma FrontStep(a0: int, b0: int, P: int, ra: int, rb: int)
    requires a0 < b0 && 0 <= ra < P && 0 <= rb
    ensures a0 * P + ra < b0 * P + rb
  {
    MulLe(a0 + 1, b0, P);
  }

  /** Numeric order of demand vectors is their lexicographic order. */
  lemma {:induction false} ValueOrderIsLex(a: seq<int>, b: seq<int>, N: int)
    requires N >= 1 && |a| == |b| && Digits(a, N) && Digits(b, N)
    ensures Value(a, N) < Value(b, N) <==> LexLess(a, b)
  {
    if |a| > 0 {
      if a[0] < b[0] {
        ValueFrontOrder(a, b, N);
      } else if b[0] < a[0] {
        ValueFrontOrder(b, a, N);
      } else {
        ValueFront(a, N);
        ValueFront(b, N);
        assert Digits(a[1..], N) && Digits(b[1..], N);
        ValueOrderIsLex(a[1..], b[1..], N);
      }
    }
  }

  /** What allD's enumeration promises: the i-th vector is i written in base N. */
  ghost predicate Enumerates(res: seq<seq<int>>, N: int, K: nat)
  {
    |res| == Power(N, K) &&
    forall i :: 0 <= i < |res| ==> |res[i]| == K && Digits(res[i], N) && Value(res[i], N) == i
  }

  /**
   * Such an enumeration starts at [0] * K, ends at [N - 1] * K, lists every
   * vector of K file indices, and lists them in strictly increasing
   * lexicographic order, hence each once.
   */
  lemma EnumerationProperties(res: seq<seq<int>>, N: int, K: nat)
    requires N >= 1 && Enumerates(res, N, K)
    ensures |res| > 0 && res[0] == Rep(0, K) && res[|res| - 1] == Rep(N - 1, K)
    ensures forall v :: |v| == K && Digits(v, N) ==> v in res
    ensures forall i, j :: 0 <= i < j < |res| ==> LexLess(res[i], res[j])
  {
    PowerPositive(N, K);
    ValueRep(N, K);
    ValueInjective(res[0], Rep(0, K), N);
    ValueInjective(res[|res| - 1], Rep(N - 1, K), N);
    forall v | |v| == K && Digits(v, N)
      ensures v in res
    {
      ValueBound(v, N);
      ValueInjective(res[Value(v, N)], v, N);
    }
    forall i, j | 0 <= i < j < |res|
      ensures LexLess(res[i], res[j])
    {
      ValueOrderIsLex(res[i], res[j], N);
    }
  }

  /** The state in which Increment stops: position c bumped, the run after it zeroed. */
  lemma IncrementStep(d0: seq<int>, e: seq<int>, c: nat, N: int)
    requires c < |d0| == |e| && Digits(d0, N) && d0[c] < N - 1
    requires e[..c] == d0[..c] && e[c] == d0[c] + 1
    requires forall i :: c < i < |d0| ==> d0[i] == N - 1 && e[i] == 0
    ensures Digits(e, N) && Value(e, N) == Value(d0, N) + 1
  {
    var m := |d0| - c - 1;
    assert d0 == d0[..c] + [d0[c]] + Rep(N - 1, m);
    assert e == d0[..c] + [d0[c] + 1] + Rep(0, m);
    ValueSucc(d0[..c], d0[c], m, N);
    forall i | 0 <= i < |e|
      ensures 0 <= e[i] < N
    {
      if i < c {
        assert e[i] == e[..c][i] == d0[..c][i];
      }
    }
  }

  /**
   * The body of allD's for loop: from the last position backwards, bump the
   * first entry below N - 1 and zero the ones passed over.
   */
  method Increment(d: array<int>, N: int)
    requires Digits(d[..], N) && d[..] != Rep(N - 1, d.Length)
    modifies d
    ensures Digits(d[..], N) && Value(d[..], N) == Value(old(d[..]), N) + 1
  {
    ghost var d0 := d[..];
    var checkPos := d.Length;
    while checkPos > 0
      invariant 0 <= checkPos <= d.Length
      invariant d[..checkPos] == d0[..checkPos]
      invariant forall i :: checkPos <= i < d.Length ==> d0[i] == N - 1 && d[i] == 0
      invariant exists i :: 0 <= i < checkPos && d0[i] < N - 1
    {
      checkPos := checkPos - 1;
      if d[checkPos] < N - 1 {
        d[checkPos] := d[checkPos] + 1;
        IncrementStep(d0, d[..], checkPos, N);
        return;
      } else {
        d[checkPos] := 0;
      }
    }
    assert false;
  }

  // ----- printableServerTransmission -----

  function DigitChar(d: nat): (c: char)
    requires d < 10
    ensures c as int == '0' as int + d
  {
    ('0' as int + d) as char
  }

  /** str(n) for a non-negative integer. */
  function NatStr(n: nat): (s: string)
    ensures |s| > 0 && forall i :: 0 <= i < |s| ==> '0' <= s[i] <= '9'
  {
    if n < 10 then [DigitChar(n)] else NatStr(n / 10) + [DigitChar(n % 10)]
  }

  /** int(s) for a string of decimal digits. */
  function ParseNat(s: string): int
  {
    if |s| == 0 then 0 else ParseNat(s[..|s| - 1]) * 10 + (s[|s| - 1] as int - '0' as int)
  }

  lemma {:induction false} ParseNatStr(n: nat)
    ensures ParseNat(NatStr(n)) == n
  {
    if n >= 10 {
      ParseNatStr(n / 10);
      assert (NatStr(n / 10) + [DigitChar(n % 10)])[..|NatStr(n / 10)|] == NatStr(n / 10);
    }
  }

  /** The rendering of column c: "<file>-<subfile>". */
  function Term(c: nat, C: int): string
    requires C > 0
  {
    NatStr(c / C) + "-" + NatStr(c % C)
  }

  /** Position of the first '-' (or the length when there is none). */
  function DashIndex(s: string): (i: nat)
    ensures i <= |s|
  {
    if |s| == 0 then 0 else if s[0] == '-' then 0 else 1 + DashIndex(s[1..])
  }

  lemma {:induction false} DashIndexAfterDigits(x: string, y: string)
    requires forall i :: 0 <= i < |x| ==> '0' <= x[i] <= '9'
    ensures DashIndex(x + "-" + y) == |x|
  {
    if |x| > 0 {
      assert (x + "-" + y)[1..] == x[1..] + "-" + y;
      DashIndexAfterDigits(x[1..], y);
    }
  }

  /** Read a rendered term back: the numbers before and after the first '-'. */
  function ParseTerm(s: string): Option<(int, int)>
  {
    var i := DashIndex(s);
    if i == |s| then None else Some((ParseNat(s[..i]), ParseNat(s[i + 1..])))
  }

  /** Each rendered term reads back as its column's file and subfile. */
  lemma TermRoundTrip(c: nat, C: int)
    requires C > 0
    ensures ParseTerm(Term(c, C)) == Some((c / C, c % C))
  {
    ParseDashed(NatStr(c / C), NatStr(c % C));
    ParseNatStr(c / C);
    ParseNatStr(c % C);
  }

  lemma ParseDashed(x: string, y: string)
    requires forall i :: 0 <= i < |x| ==> '0' <= x[i] <= '9'
    ensures ParseTerm(x + "-" + y) == Some((ParseNat(x), ParseNat(y)))
  {
    var s := x + "-" + y;
    DashIndexAfterDigits(x, y);
    assert s[..|x|] == x;
    assert s[|x| + 1..] == y;
  }

  /** Distinct columns render differently. */
  lemma TermInjective(c: nat, c': nat, C: int)
    requires C > 0 && Term(c, C) == Term(c', C)
    ensures c == c'
  {
    TermRoundTrip(c, C);
    TermRoundTrip(c', C);
    DivModDetermine(c, c', C);
  }

  /** A number is determined by its quotient and remainder. */
  lemma DivModDetermine(c: nat, c': nat, C: int)
    requires C > 0 && c / C == c' / C && c % C == c' % C
    ensures c == c'
  {
    assert c == (c / C) * C + c % C;
    assert c' == (c' / C) * C + c' % C;
  }

  /** The terms of one row: one per set column, left to right. */
  function RowTerms(row: seq<bool>, C: int): seq<string>
    requires C > 0
  {
    if |row| == 0 then []
    else RowTerms(row[..|row| - 1], C) + (if row[|row| - 1] then [Term(|row| - 1, C)] else [])
  }

  /** A row's terms are exactly the terms of its set columns. */
  lemma {:induction false} RowTermsExact(row: seq<bool>, C: int)
    requires C > 0
    ensures forall c :: 0 <= c < |row| ==> (row[c] <==> Term(c, C) in RowTerms(row, C))
    ensures forall s :: s in RowTerms(row, C) ==>
              exists c :: 0 <= c < |row| && row[c] && s == Term(c, C)
  {
    if |row| > 0 {
      var n := |row| - 1;
      RowTermsExact(row[..n], C);
      forall c | 0 <= c < |row|
        ensures row[c] <==> Term(c, C) in RowTerms(row, C)
      {
        if c < n {
          assert row[..n][c] == row[c];
          if Term(c, C) == Term(n, C) {
            TermInjective(c, n, C);
          }
        } else if !row[c] {
          if Term(c, C) in RowTerms(row[..n], C) {
            var c' :| 0 <= c' < n && row[..n][c'] && Term(c, C) == Term(c', C);
            TermInjective(c, c', C);
          }
        }
      }
    }
  }

  /** Python's sep.join(parts). */
  function Join(parts: seq<string>, sep: string): string
  {
    if |parts| == 0 then ""
    else if |parts| == 1 then parts[0]
    else Join(parts[..|parts| - 1], sep) + sep + parts[|parts| - 1]
  }

  /** Some bit of the row is set. */
  ghost predicate RowSet(row: seq<bool>)
  {
    exists c :: 0 <= c < |row| && row[c]
  }

  /** The printed lines: one per row with a set bit, its terms joined by " + ". */
  function Rendered(rows: seq<seq<bool>>, C: int): seq<string>
    requires C > 0
  {
    if |rows| == 0 then []
    else
      var terms := RowTerms(rows[|rows| - 1], C);
      Rendered(rows[..|rows| - 1], C) + (if |terms| > 0 then [Join(terms, " + ")] else [])
  }

  /** Rows with no set bit print nothing; the others print a line each. */
  lemma {:induction false} RenderedSkipsEmptyRows(rows: seq<seq<bool>>, C: int)
    requires C > 0
    ensures Rendered(rows, C) == [] <==> forall i :: 0 <= i < |rows| ==> !RowSet(rows[i])
  {
    if |rows| > 0 {
      var n := |rows| - 1;
      RenderedSkipsEmptyRows(rows[..n], C);
      RowTermsEmpty(rows[n], C);
      assert forall i :: 0 <= i < n ==> rows[..n][i] == rows[i];
    }
  }

  /** A row prints no term exactly when none of its bits is set. */
  lemma RowTermsEmpty(row: seq<bool>, C: int)
    requires C > 0
    ensures |RowTerms(row, C)| == 0 <==> !RowSet(row)
  {
    RowTermsExact(row, C);
    if |RowTerms(row, C)| > 0 {
      assert RowTerms(row, C)[0] in RowTerms(row, C);
    }
    if RowSet(row) {
      var c :| 0 <= c < |row| && row[c];
      assert Term(c, C) in RowTerms(row, C);
    }
  }

  datatype Printout = Joined(text: string) | Listed(lines: seq<string>)

  /** Some bit of the transmission is set. */
  ghost predicate AnySet(rows: seq<seq<bool>>)
  {
    exists r, c :: 0 <= r < |rows| && 0 <= c < |rows[r]| && rows[r][c]
  }

  /**
   * printableServerTransmission: with C subfiles per file, the lines joined
   * by " || ", or as a list when inList; dividing by C = 0 raises as soon as
   * a set bit is met.
   */
  ghost function PrintableSpec(rows: seq<seq<bool>>, C: nat, inList: bool): Result<Printout, Raised>
  {
    if C == 0 && AnySet(rows) then Err(ZeroDivisionError)
    else
      var lines := if C > 0 then Rendered(rows, C) else [];
      if inList then Ok(Listed(lines)) else Ok(Joined(Join(lines, " || ")))
  }

  class Network {
    var M: real
    var N: int
    var K: nat
    var t: int
    var numOfSubfile: nat
    var numOfCodedSubfiles: nat
    var placementDone: bool

    /** The fields of a network whose parameters passed the constructor's checks. */
    constructor (M: real, N: int, K: nat, p: Params)
      ensures this.M == M && this.N == N && this.K == K && t == p.t
      ensures numOfSubfile == p.numOfSubfile && numOfCodedSubfiles == p.numOfCodedSubfiles
      ensures !placementDone
    {
      this.M := M;
      this.N := N;
      this.K := K;
      t := p.t;
      numOfSubfile := p.numOfSubfile;
      numOfCodedSubfiles := p.numOfCodedSubfiles;
      placementDone := false;
    }

    /**
     * allD: every demand vector of K users over N files, first [0] * K,
     * then base-N successors up to [N - 1] * K.  Each yielded vector is
     * recorded as it stood when yielded.
     */
    method AllD() returns (res: seq<seq<int>>)
      requires N >= 1 || K == 0
      ensures Enumerates(res, N, K)
      ensures N >= 1 ==> forall v :: |v| == K && Digits(v, N) ==> v in res
      ensures N >= 1 ==> forall i, j :: 0 <= i < j < |res| ==> LexLess(res[i], res[j])
    {
      var curD := new int[K](_ => 0);
      var last := Rep(N - 1, K);
      res := [];
      PowerPositive(N, K);
      ValueRep(N, K);
      assert curD[..] == Rep(0, K);
      while curD[..] != last
        invariant curD.Length == K && Digits(curD[..], N) && Value(curD[..], N) == |res|
        invariant |res| < Power(N, K)
        invariant forall i :: 0 <= i < |res| ==> |res[i]| == K && Digits(res[i], N) && Value(res[i], N) == i
        decreases Power(N, K) - |res|
      {
        res := res + [curD[..]];
        Increment(curD, N);
        ValueBound(curD[..], N);
      }
      res := res + [curD[..]];
      if N >= 1 {
        EnumerationProperties(res, N, K);
      }
    }

    /** printableServerTransmission over the rows of X. */
    method PrintableServerTransmission(X: array2<bool>, inList: bool) returns (r: Result<Printout, Raised>)
      ensures r == PrintableSpec(Grid(X), numOfSubfile, inList)
    {
      var C := numOfSubfile;
      var printoutList: seq<string> := [];
      var totalRow, totalCol := X.Length0, X.Length1;
      var row := 0;
      while row < totalRow
        invariant 0 <= row <= totalRow
        invariant C > 0 ==> printoutList == Rendered(Grid(X)[..row], C)
        invariant C == 0 ==> printoutList == [] && !AnySet(Grid(X)[..row])
      {
        var subfileList: seq<string> := [];
        var col := 0;
        while col < totalCol
          invariant 0 <= col <= totalCol
          invariant C > 0 ==> subfileList == RowTerms(Grid(X)[row][..col], C)
          invariant C == 0 ==> subfileList == [] && forall c :: 0 <= c < col ==> !X[row, c]
        {
          if X[row, col] {
            if C == 0 {
              assert Grid(X)[row][col];
              return Err(ZeroDivisionError);
            }
            var fileId := col / C;
            var subfileId := col % C;
            subfileList := subfileList + [NatStr(fileId) + "-" + NatStr(subfileId)];
          }
          assert Grid(X)[row][..col + 1][..col] == Grid(X)[row][..col];
          col := col + 1;
        }
        assert Grid(X)[row][..totalCol] == Grid(X)[row];
        if |subfileList| > 0 {
          printoutList := printoutList + [Join(subfileList, " + ")];
        }
        assert Grid(X)[..row + 1][..row] == Grid(X)[..row];
        row := row + 1;
      }
      assert Grid(X)[..totalRow] == Grid(X);
      if !inList {
        r := Ok(Joined(Join(printoutList, " || ")));
      } else {
        r := Ok(Listed(printoutList));
      }
    }
  }

  /** The constructor: compute t, check it, then the counts; or raise. */
  method NewNetwork(M: real, N: int, K: nat, t: Option<real>) returns (r: Result<Network, Raised>)
    ensures r.Err? <==> Setup(M, N, K, t).Err?
    ensures r.Err? ==> r.error == Setup(M, N, K, t).error
    ensures r.Ok? ==> fresh(r.value) && r.value.M == M && r.value.N == N && r.value.K == K &&
                      r.value.t == Setup(M, N, K, t).value.t &&
                      r.value.numOfSubfile == Setup(M, N, K, t).value.numOfSubfile &&
                      r.value.numOfCodedSubfiles == Setup(M, N, K, t).value.numOfCodedSubfiles &&
                      !r.value.placementDone
  {
    var tv := ChooseT(M, N, K, t);
    if tv.Err? {
      return Err(tv.error);
    }
    var ti := IntegralT(tv.value);
    if ti.Err? {
      return Err(ti.error);
    }
    var net := new Network(M, N, K, Params(ti.value, Binomial(K, ti.value), Binomial(K, ti.value + 1)));
    r := Ok(net);
  }
}
