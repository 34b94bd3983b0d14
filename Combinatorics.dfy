/**
 * Binomial coefficients and the k-subsets of a range in the order
 * itertools.combinations lists them, which Server.py and Network.py use to
 * size and to index subfiles and user groups.
 */
module Combinatorics {

  /** n choose k, and 0 when k < 0, n < 0 or k > n (as scipy.special.comb gives). */
  function Binomial(n: int, k: int): nat
    decreases n
  {
    if k < 0 || n < 0 || k > n then 0
    else if k == 0 then 1
    else Binomial(n - 1, k - 1) + Binomial(n - 1, k)
  }

  /**
   * The k-element subsets of [lo, n), each as an increasing sequence, in
   * lexicographic order: those starting with lo first, then those of
   * [lo + 1, n).
   */
  function Combs(lo: int, n: int, k: nat): seq<seq<int>>
    decreases n - lo, k
  {
    if k == 0 then [[]]
    else if n - lo < k then []
    else Prepend(lo, Combs(lo + 1, n, k - 1)) + Combs(lo + 1, n, k)
  }

  function Prepend(x: int, cs: seq<seq<int>>): (r: seq<seq<int>>)
    ensures |r| == |cs| && forall i :: 0 <= i < |cs| ==> r[i] == [x] + cs[i]
  {
    if |cs| == 0 then [] else [[x] + cs[0]] + Prepend(x, cs[1..])
  }

  /** Strictly increasing, with every element in [lo, n). */
  ghost predicate IncreasingIn(c: seq<int>, lo: int, n: int)
  {
    (forall i :: 0 <= i < |c| ==> lo <= c[i] < n) &&
    (forall i, j :: 0 <= i < j < |c| ==> c[i] < c[j])
  }

  /** Lexicographic order on sequences of integers, strict. */
  predicate LexLess(a: seq<int>, b: seq<int>)
  {
    if |a| == 0 then |b| > 0
    else if |b| == 0 then false
    else a[0] < b[0] || (a[0] == b[0] && LexLess(a[1..], b[1..]))
  }

  /** There are exactly Binomial(n - lo, k) of them. */
  lemma {:induction false} CombsLength(lo: int, n: int, k: nat)
    requires lo <= n
    ensures |Combs(lo, n, k)| == Binomial(n - lo, k)
    decreases n - lo, k
  {
    if k != 0 && n - lo >= k {
      CombsLength(lo + 1, n, k - 1);
      CombsLength(lo + 1, n, k);
    }
  }

  /** Each one has k elements, increasing, within [lo, n). */
  lemma {:induction false} CombsIncreasing(lo: int, n: int, k: nat)
    ensures forall i :: 0 <= i < |Combs(lo, n, k)| ==>
              |Combs(lo, n, k)[i]| == k && IncreasingIn(Combs(lo, n, k)[i], lo, n)
    decreases n - lo, k
  {
    if k != 0 && n - lo >= k {
      CombsIncreasing(lo + 1, n, k - 1);
      CombsIncreasing(lo + 1, n, k);
      var A := Prepend(lo, Combs(lo + 1, n, k - 1));
      var B := Combs(lo + 1, n, k);
      forall i | 0 <= i < |A + B|
        ensures |(A + B)[i]| == k && IncreasingIn((A + B)[i], lo, n)
      {
        if i < |A| {
          var c := Combs(lo + 1, n, k - 1)[i];
          assert (A + B)[i] == [lo] + c;
          assert forall j :: 0 < j < |[lo] + c| ==> ([lo] + c)[j] == c[j - 1];
        } else {
          assert (A + B)[i] == B[i - |A|];
        }
      }
    }
  }

  /** Every increasing k-sequence within [lo, n) is listed. */
  lemma {:induction false} CombsComplete(lo: int, n: int, k: nat, c: seq<int>)
    requires |c| == k && IncreasingIn(c, lo, n)
    ensures c in Combs(lo, n, k)
    decreases n - lo, k, 1
  {
    if k == 0 {
      assert c == [];
    } else {
      IncreasingSpan(c, lo, n);
      if c[0] == lo {
        CombsCompleteHead(lo, n, k, c);
      } else {
        assert IncreasingIn(c, lo + 1, n);
        CombsComplete(lo + 1, n, k, c);
      }
    }
  }

  lemma {:induction false} CombsCompleteHead(lo: int, n: int, k: nat, c: seq<int>)
    requires |c| == k && k > 0 && n - lo >= k && IncreasingIn(c, lo, n) && c[0] == lo
    ensures c in Combs(lo, n, k)
    decreases n - lo, k, 0
  {
    var A := Prepend(lo, Combs(lo + 1, n, k - 1));
    assert IncreasingIn(c[1..], lo + 1, n);
    CombsComplete(lo + 1, n, k - 1, c[1..]);
    var i :| 0 <= i < |Combs(lo + 1, n, k - 1)| && Combs(lo + 1, n, k - 1)[i] == c[1..];
    assert A[i] == c;
    assert c in A;
  }

  /** An increasing sequence within [lo, n) is no longer than n - lo. */
  lemma {:induction false} IncreasingSpan(c: seq<int>, lo: int, n: int)
    requires IncreasingIn(c, lo, n)
    ensures |c| > 0 ==> |c| <= n - lo
    decreases |c|
  {
    if |c| > 0 {
      assert lo <= c[0];
      assert IncreasingIn(c[1..], c[0] + 1, n);
      IncreasingSpan(c[1..], c[0] + 1, n);
    }
  }

  /** Strictly increasing in lexicographic order, so each member listed exactly once. */
  predicate LexSorted(cs: seq<seq<int>>)
  {
    forall i, j :: 0 <= i < j < |cs| ==> LexLess(cs[i], cs[j])
  }

  /** The combinations come in that order, as itertools.combinations emits them. */
  lemma {:induction false} CombsSorted(lo: int, n: int, k: nat)
    ensures LexSorted(Combs(lo, n, k))
    decreases n - lo, k
  {
    if k != 0 && n - lo >= k {
      var C := Combs(lo + 1, n, k - 1);
      var B := Combs(lo + 1, n, k);
      CombsSorted(lo + 1, n, k - 1);
      CombsSorted(lo + 1, n, k);
      CombsIncreasing(lo + 1, n, k);
      PrependSorted(lo, C);
      forall j | 0 <= j < |B|
        ensures |B[j]| > 0 && B[j][0] > lo
      {
        assert IncreasingIn(B[j], lo + 1, n);
      }
      SortedAppend(Prepend(lo, C), B, lo);
    }
  }

  /** Putting the same first entry in front keeps the order. */
  lemma PrependSorted(x: int, cs: seq<seq<int>>)
    requires LexSorted(cs)
    ensures LexSorted(Prepend(x, cs))
  {
    var A := Prepend(x, cs);
    forall i, j | 0 <= i < j < |A|
      ensures LexLess(A[i], A[j])
    {
      assert A[i][1..] == cs[i] && A[j][1..] == cs[j];
    }
  }

  /** Lists starting with lo, then lists starting above lo, are in order. */
  lemma SortedAppend(A: seq<seq<int>>, B: seq<seq<int>>, lo: int)
    requires LexSorted(A) && LexSorted(B)
    requires forall i :: 0 <= i < |A| ==> |A[i]| > 0 && A[i][0] == lo
    requires forall j :: 0 <= j < |B| ==> |B[j]| > 0 && B[j][0] > lo
    ensures LexSorted(A + B)
  {
    forall i, j | 0 <= i < j < |A + B|
      ensures LexLess((A + B)[i], (A + B)[j])
    {
      if j < |A| {
        assert (A + B)[i] == A[i] && (A + B)[j] == A[j];
      } else if i < |A| {
        assert (A + B)[i] == A[i] && (A + B)[j] == B[j - |A|];
      } else {
        assert (A + B)[i] == B[i - |A|] && (A + B)[j] == B[j - |A|];
      }
    }
  }

  /** The elements of a sequence with no repeats number its length. */
  lemma {:induction false} DistinctCard(c: seq<int>)
    requires forall i, j :: 0 <= i < j < |c| ==> c[i] != c[j]
    ensures |set x | x in c| == |c|
  {
    if |c| > 0 {
      var tail := c[1..];
      DistinctCard(tail);
      assert (set x | x in c) == (set x | x in tail) + {c[0]};
      assert c[0] !in tail;
    }
  }
}
