/** Finite sums of integer-valued functions over a half-open index range.
    The slide-puzzle heuristic is a sum of per-cell scores, and its
    incremental update is justified by rearranging such sums. */
module IntSums {

  /** Sum of `F(i)` for `lo <= i < hi`, accumulated from the left. */
  function Sum(lo: int, hi: int, F: int -> int): int
    decreases hi - lo
  {
    if hi <= lo then 0 else Sum(lo, hi - 1, F) + F(hi - 1)
  }

  /** Number of indices in `[lo, hi)` satisfying `P`. */
  function Count(lo: int, hi: int, P: int -> bool): (r: nat)
    ensures r <= if hi <= lo then 0 else hi - lo
    decreases hi - lo
  {
    if hi <= lo then 0 else Count(lo, hi - 1, P) + (if P(hi - 1) then 1 else 0)
  }

  /** Sums agree when their summands agree on the range. */
  lemma {:induction false} SumCongruent(lo: int, hi: int, F: int -> int, G: int -> int)
    requires forall i :: lo <= i < hi ==> F(i) == G(i)
    ensures Sum(lo, hi, F) == Sum(lo, hi, G)
    decreases hi - lo
  {
    if lo < hi {
      SumCongruent(lo, hi - 1, F, G);
    }
  }

  /** Counts agree when their predicates agree on the range. */
  lemma {:induction false} CountCongruent(lo: int, hi: int, P: int -> bool, Q: int -> bool)
    requires forall i :: lo <= i < hi ==> (P(i) <==> Q(i))
    ensures Count(lo, hi, P) == Count(lo, hi, Q)
    decreases hi - lo
  {
    if lo < hi {
      CountCongruent(lo, hi - 1, P, Q);
    }
  }

  /** A sum of pointwise sums is the sum of the two sums. */
  lemma {:induction false} SumAdd(lo: int, hi: int, F: int -> int, G: int -> int, H: int -> int)
    requires forall i :: lo <= i < hi ==> H(i) == F(i) + G(i)
    ensures Sum(lo, hi, H) == Sum(lo, hi, F) + Sum(lo, hi, G)
    decreases hi - lo
  {
    if lo < hi {
      SumAdd(lo, hi - 1, F, G, H);
    }
  }

  /** A constant factor moves out of a sum. */
  lemma {:induction false} SumScale(lo: int, hi: int, c: int, F: int -> int, G: int -> int)
    requires forall i :: lo <= i < hi ==> G(i) == c * F(i)
    ensures Sum(lo, hi, G) == c * Sum(lo, hi, F)
    decreases hi - lo
  {
    if lo < hi {
      SumScale(lo, hi - 1, c, F, G);
    }
  }

  /** A sum whose summands are all zero is zero. */
  lemma {:induction false} SumZero(lo: int, hi: int, F: int -> int)
    requires forall i :: lo <= i < hi ==> F(i) == 0
    ensures Sum(lo, hi, F) == 0
    decreases hi - lo
  {
    if lo < hi {
      SumZero(lo, hi - 1, F);
    }
  }

  /** A sum of non-negative summands is non-negative. */
  lemma {:induction false} SumNonNegative(lo: int, hi: int, F: int -> int)
    requires forall i :: lo <= i < hi ==> F(i) >= 0
    ensures Sum(lo, hi, F) >= 0
    decreases hi - lo
  {
    if lo < hi {
      SumNonNegative(lo, hi - 1, F);
    }
  }

  /** A sum of non-negative summands is zero only if every summand is. */
  lemma {:induction false} SumZeroOnlyIfAllZero(lo: int, hi: int, F: int -> int)
    requires forall i :: lo <= i < hi ==> F(i) >= 0
    requires Sum(lo, hi, F) == 0
    ensures forall i :: lo <= i < hi ==> F(i) == 0
    decreases hi - lo
  {
    if lo < hi {
      SumNonNegative(lo, hi - 1, F);
      SumZeroOnlyIfAllZero(lo, hi - 1, F);
    }
  }

  /** Splitting the range at `mid` splits the sum. */
  lemma {:induction false} SumSplit(lo: int, mid: int, hi: int, F: int -> int)
    requires lo <= mid <= hi
    ensures Sum(lo, hi, F) == Sum(lo, mid, F) + Sum(mid, hi, F)
    decreases hi - mid
  {
    if mid < hi {
      SumSplit(lo, mid, hi - 1, F);
    }
  }

  /** A sum with a single non-zero summand at `j` equals that summand. */
  lemma SumSingle(lo: int, hi: int, j: int, F: int -> int)
    requires lo <= j < hi
    requires forall i :: lo <= i < hi && i != j ==> F(i) == 0
    ensures Sum(lo, hi, F) == F(j)
  {
    SumSplit(lo, j, hi, F);
    SumZero(lo, j, F);
    SumSplit(j, j + 1, hi, F);
    SumZero(j + 1, hi, F);
  }

  /** Shifting the index range shifts the summand. */
  lemma {:induction false} SumShift(lo: int, hi: int, d: int, F: int -> int, G: int -> int)
    requires forall i :: lo <= i < hi ==> G(i) == F(i + d)
    ensures Sum(lo, hi, G) == Sum(lo + d, hi + d, F)
    decreases hi - lo
  {
    if lo < hi {
      SumShift(lo, hi - 1, d, F, G);
    }
  }

  /** A count is the sum of the predicate's indicator. */
  lemma {:induction false} CountIsSum(lo: int, hi: int, P: int -> bool, F: int -> int)
    requires forall i :: lo <= i < hi ==> F(i) == if P(i) then 1 else 0
    ensures Count(lo, hi, P) == Sum(lo, hi, F)
    decreases hi - lo
  {
    if lo < hi {
      CountIsSum(lo, hi - 1, P, F);
    }
  }

  /** Pointwise smaller summands give a smaller sum. */
  lemma {:induction false} SumMonotone(lo: int, hi: int, F: int -> int, G: int -> int)
    requires forall i :: lo <= i < hi ==> F(i) <= G(i)
    ensures Sum(lo, hi, F) <= Sum(lo, hi, G)
    decreases hi - lo
  {
    if lo < hi {
      SumMonotone(lo, hi - 1, F, G);
    }
  }

  /** A sum with non-zero summands only at `j` and `k` is their sum. */
  lemma SumPair(lo: int, hi: int, j: int, k: int, F: int -> int)
    requires lo <= j < k < hi
    requires forall i :: lo <= i < hi && i != j && i != k ==> F(i) == 0
    ensures Sum(lo, hi, F) == F(j) + F(k)
  {
    SumSplit(lo, k, hi, F);
    SumSingle(lo, k, j, F);
    SumSingle(k, hi, k, F);
  }

  /** The difference of two counts is the sum of the indicator differences. */
  lemma {:induction false} CountDifference(lo: int, hi: int, P: int -> bool, Q: int -> bool, F: int -> int)
    requires forall i :: lo <= i < hi ==> F(i) == (if P(i) then 1 else 0) - (if Q(i) then 1 else 0)
    ensures Count(lo, hi, P) - Count(lo, hi, Q) == Sum(lo, hi, F)
    decreases hi - lo
  {
    if lo < hi {
      CountDifference(lo, hi - 1, P, Q, F);
    }
  }

  /** A sum over `m` blocks of `n` consecutive indices, block by block. */
  lemma {:induction false} SumBlocks(m: nat, n: nat, G: int -> int)
    ensures Sum(0, m * n, G) == Sum(0, m, r => Sum(0, n, c => G(r * n + c)))
    decreases m
  {
    if m > 0 {
      SumBlocks(m - 1, n, G);
      assert m * n == (m - 1) * n + n;
      SumSplit(0, (m - 1) * n, m * n, G);
      SumShift(0, n, (m - 1) * n, G, c => G((m - 1) * n + c));
    }
  }

  /** A count of a predicate that holds nowhere on the range is zero. */
  lemma {:induction false} CountNone(lo: int, hi: int, P: int -> bool)
    requires forall i :: lo <= i < hi ==> !P(i)
    ensures Count(lo, hi, P) == 0
    decreases hi - lo
  {
    if lo < hi {
      CountNone(lo, hi - 1, P);
    }
  }

  /** Two counts whose predicates differ at most at `j` differ by the
      indicators there. */
  lemma CountOneDiff(lo: int, hi: int, P: int -> bool, Q: int -> bool, j: int)
    requires lo <= j < hi
    requires forall i :: lo <= i < hi && i != j ==> P(i) == Q(i)
    ensures Count(lo, hi, P) - Count(lo, hi, Q) == (if P(j) then 1 else 0) - (if Q(j) then 1 else 0)
  {
    var F := i => (if P(i) then 1 else 0) - (if Q(i) then 1 else 0);
    CountDifference(lo, hi, P, Q, F);
    SumSingle(lo, hi, j, F);
  }

  /** Two counts whose predicates differ at most at `j` and `k`. */
  lemma CountTwoDiff(lo: int, hi: int, P: int -> bool, Q: int -> bool, j: int, k: int)
    requires lo <= j < k < hi
    requires forall i :: lo <= i < hi && i != j && i != k ==> P(i) == Q(i)
    ensures Count(lo, hi, P) - Count(lo, hi, Q) ==
              (if P(j) then 1 else 0) - (if Q(j) then 1 else 0) +
              (if P(k) then 1 else 0) - (if Q(k) then 1 else 0)
  {
    var F := i => (if P(i) then 1 else 0) - (if Q(i) then 1 else 0);
    CountDifference(lo, hi, P, Q, F);
    SumPair(lo, hi, j, k, F);
  }
}
