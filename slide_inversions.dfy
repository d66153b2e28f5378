/** Inversion counts of slidePuzzle.js: `_inversionCount` in its row-major
    and its column-major ("horizontal") reading, the Takahashi inversion
    distance built on them in `findH`, and the solvability rule of
    `_validatePuzzle`. */
module SlideInversions {
  import opened Wrappers
  import opened Arith
  import opened SlideBoard

  /** The non-blank entries of `s`, in order (the `appeared` array). */
  function NonZero(s: seq<int>): (r: seq<int>)
    ensures |r| <= |s|
    ensures forall x :: x in r ==> x in s && x != 0
  {
    if s == [] then []
    else NonZero(s[..|s| - 1]) + (if s[|s| - 1] != 0 then [s[|s| - 1]] else [])
  }

  /** How many of `vals` exceed `x` (the `reduce` over `appeared`). */
  function CountGreater(vals: seq<int>, x: int): nat
  {
    if vals == [] then 0
    else CountGreater(vals[..|vals| - 1], x) + (if vals[|vals| - 1] > x then 1 else 0)
  }

  /** The inversion count as `_inversionCount` accumulates it: each
      non-blank entry adds the number of earlier non-blank entries above it. */
  function Inversions(s: seq<int>): nat
  {
    if s == [] then 0
    else
      var p, j := s[..|s| - 1], s[|s| - 1];
      Inversions(p) + (if j == 0 then 0 else CountGreater(NonZero(p), j))
  }

  /** The pairs of positions that are out of order, the blank ignored. */
  function InversionPairs(s: seq<int>): set<(int, int)>
  {
    set i, j | 0 <= i < j < |s| && s[i] != 0 && s[j] != 0 && s[i] > s[j] :: (i, j)
  }

  /** Positions before `k` holding a non-blank entry above `x`. */
  function GreaterBefore(s: seq<int>, k: int, x: int): set<int>
    requires 0 <= k <= |s|
  {
    set i | 0 <= i < k && s[i] != 0 && s[i] > x
  }

  lemma {:induction false} CountGreaterIsCard(s: seq<int>, k: int, x: int)
    requires 0 <= k <= |s|
    ensures CountGreater(NonZero(s[..k]), x) == |GreaterBefore(s, k, x)|
    decreases k
  {
    if k > 0 {
      CountGreaterIsCard(s, k - 1, x);
      CountGreaterStep(s, k, x);
      GreaterBeforeStep(s, k, x);
    }
  }

  /** Extending the prefix by one entry adds one to the count exactly when
      that entry is a non-blank above `x`. */
  lemma CountGreaterStep(s: seq<int>, k: int, x: int)
    requires 0 < k <= |s|
    ensures CountGreater(NonZero(s[..k]), x) ==
              CountGreater(NonZero(s[..k - 1]), x) + (if s[k - 1] != 0 && s[k - 1] > x then 1 else 0)
  {
    var p := s[..k];
    assert p[..k - 1] == s[..k - 1];
    var a := NonZero(s[..k - 1]);
    var y := s[k - 1];
    if y != 0 {
      assert NonZero(p) == a + [y];
      assert (a + [y])[..|a|] == a;
    } else {
      assert NonZero(p) == a;
    }
  }

  lemma GreaterBeforeStep(s: seq<int>, k: int, x: int)
    requires 0 < k <= |s|
    ensures |GreaterBefore(s, k, x)| ==
              |GreaterBefore(s, k - 1, x)| + (if s[k - 1] != 0 && s[k - 1] > x then 1 else 0)
  {
    var G, G' := GreaterBefore(s, k, x), GreaterBefore(s, k - 1, x);
    var extra := if s[k - 1] != 0 && s[k - 1] > x then {k - 1} else {};
    forall i
      ensures i in G <==> i in G' + extra
    {
    }
    assert G == G' + extra;
    assert G' !! extra;
  }

  /** Pairing every position of `GreaterBefore` with a fixed `c` keeps the
      count. */
  lemma {:induction false} PairWithCard(s: seq<int>, k: int, x: int, c: int)
    requires 0 <= k <= |s|
    ensures |set i | i in GreaterBefore(s, k, x) :: (i, c)| == |GreaterBefore(s, k, x)|
    decreases k
  {
    if k > 0 {
      PairWithCard(s, k - 1, x, c);
      var G, G' := GreaterBefore(s, k, x), GreaterBefore(s, k - 1, x);
      var P, P' := set i | i in G :: (i, c), set i | i in G' :: (i, c);
      if s[k - 1] != 0 && s[k - 1] > x {
        assert G == G' + {k - 1};
        assert k - 1 !in G';
        assert (k - 1, c) !in P';
        assert P == P' + {(k - 1, c)};
      } else {
        assert G == G';
        assert P == P';
      }
    }
  }

  /** `_inversionCount` counts exactly the out-of-order pairs of non-blank
      tiles. */
  lemma {:induction false} InversionsArePairs(s: seq<int>)
    ensures Inversions(s) == |InversionPairs(s)|
    decreases |s|
  {
    if s != [] {
      var k := |s| - 1;
      var p, j := s[..k], s[k];
      InversionsArePairs(p);
      CountGreaterIsCard(s, k, j);
      assert s[..k] == p;
      if j == 0 {
        PairsExtendBlank(s);
      } else {
        PairWithCard(s, k, j, k);
        PairsExtend(s);
      }
    }
  }

  lemma PairsExtendBlank(s: seq<int>)
    requires s != [] && s[|s| - 1] == 0
    ensures InversionPairs(s) == InversionPairs(s[..|s| - 1])
  {
    var p := s[..|s| - 1];
    forall pr | pr in InversionPairs(s) ensures pr in InversionPairs(p) {
      assert pr.1 < |p|;
    }
  }

  lemma PairsExtend(s: seq<int>)
    requires s != [] && s[|s| - 1] != 0
    ensures var k := |s| - 1;
            InversionPairs(s) ==
              InversionPairs(s[..k]) + set i | i in GreaterBefore(s, k, s[k]) :: (i, k)
    ensures var k := |s| - 1;
            InversionPairs(s[..k]) !! set i | i in GreaterBefore(s, k, s[k]) :: (i, k)
  {
    var k := |s| - 1;
    var p := s[..k];
    var last := set i | i in GreaterBefore(s, k, s[k]) :: (i, k);
    forall pr | pr in InversionPairs(s) ensures pr in InversionPairs(p) + last {
      if pr.1 < k {
        assert pr in InversionPairs(p);
      } else {
        assert pr.0 in GreaterBefore(s, k, s[k]);
      }
    }
    forall pr | pr in last ensures pr in InversionPairs(s) {
      var i := pr.0;
      assert i in GreaterBefore(s, k, s[k]);
    }
    forall pr | pr in InversionPairs(p) ensures pr in InversionPairs(s) && pr !in last {
    }
  }

  /** A board whose non-blank tiles are in increasing order has no
      inversions. */
  lemma AscendingNoInversions(s: seq<int>)
    requires forall i, j :: 0 <= i < j < |s| && s[i] != 0 && s[j] != 0 ==> s[i] < s[j]
    ensures Inversions(s) == 0
  {
    InversionsArePairs(s);
    assert InversionPairs(s) == {};
  }

  /** The inversion count only depends on the order of the non-blank tiles. */
  lemma {:induction false} InversionsOfNonZero(s: seq<int>)
    ensures Inversions(s) == Inversions(NonZero(s))
    decreases |s|
  {
    if s != [] {
      var p, j := s[..|s| - 1], s[|s| - 1];
      InversionsOfNonZero(p);
      NonZeroIdempotent(p);
      var a := NonZero(p);
      if j != 0 {
        assert NonZero(s) == a + [j];
        assert (a + [j])[..|a|] == a;
        assert NonZero(a + [j]) == NonZero(a) + [j];
        assert Inversions(a + [j]) == Inversions(a) + CountGreater(NonZero(a), j);
      } else {
        assert NonZero(s) == a + [];
        assert a + [] == a;
      }
    }
  }

  lemma {:induction false} NonZeroIdempotent(s: seq<int>)
    ensures NonZero(NonZero(s)) == NonZero(s)
    decreases |s|
  {
    if s != [] {
      var p, j := s[..|s| - 1], s[|s| - 1];
      NonZeroIdempotent(p);
      var a := NonZero(p);
      if j != 0 {
        assert (a + [j])[..|a|] == a;
        assert NonZero(a + [j]) == NonZero(a) + [j];
      } else {
        assert a + [] == a;
      }
    }
  }

  /** One more entry of a prefix extends the non-blank entries and adds its
      count of larger earlier entries. */
  lemma PrefixStep(s: seq<int>, i: int)
    requires 0 <= i < |s|
    ensures s[i] != 0 ==> NonZero(s[..i + 1]) == NonZero(s[..i]) + [s[i]]
    ensures s[i] == 0 ==> NonZero(s[..i + 1]) == NonZero(s[..i])
    ensures s[i] != 0 ==> Inversions(s[..i + 1]) == Inversions(s[..i]) + CountGreater(NonZero(s[..i]), s[i])
    ensures s[i] == 0 ==> Inversions(s[..i + 1]) == Inversions(s[..i])
  {
    assert s[..i + 1][..i] == s[..i];
  }

  /** An index-based reading of the same count, for evaluating it on a
      given board: non-blank entries among the first `k` above `x`. */
  function AboveAmong(s: seq<int>, k: int, x: int): nat
    requires 0 <= k <= |s|
  {
    if k == 0 then 0 else AboveAmong(s, k - 1, x) + (if s[k - 1] != 0 && s[k - 1] > x then 1 else 0)
  }

  /** Inversions among the first `k` entries, index by index. */
  function InversionsAt(s: seq<int>, k: int): nat
    requires 0 <= k <= |s|
  {
    if k == 0 then 0 else InversionsAt(s, k - 1) + (if s[k - 1] == 0 then 0 else AboveAmong(s, k - 1, s[k - 1]))
  }

  lemma CountGreaterSnoc(a: seq<int>, y: int, x: int)
    ensures CountGreater(a + [y], x) == CountGreater(a, x) + (if y > x then 1 else 0)
  {
    var b := a + [y];
    assert b[..|b| - 1] == a;
  }

  lemma {:induction false} AboveAmongIsCountGreater(s: seq<int>, k: int, x: int)
    requires 0 <= k <= |s|
    ensures AboveAmong(s, k, x) == CountGreater(NonZero(s[..k]), x)
    decreases k
  {
    if k > 0 {
      AboveAmongIsCountGreater(s, k - 1, x);
      var p := s[..k];
      assert p[..k - 1] == s[..k - 1];
      var a := NonZero(s[..k - 1]);
      var y := s[k - 1];
      if y != 0 {
        assert NonZero(p) == a + [y];
        CountGreaterSnoc(a, y, x);
      } else {
        assert NonZero(p) == a;
      }
    }
  }

  /** The index-based count agrees with the accumulated one on every prefix. */
  lemma {:induction false} InversionsAtAgrees(s: seq<int>, k: int)
    requires 0 <= k <= |s|
    ensures InversionsAt(s, k) == Inversions(s[..k])
    decreases k
  {
    if k > 0 {
      InversionsAtAgrees(s, k - 1);
      var p := s[..k];
      assert p[..k - 1] == s[..k - 1];
      AboveAmongIsCountGreater(s, k - 1, s[k - 1]);
    }
  }

  /** Takahashi's inversion distance: ⌊inv/(n-1)⌋ + inv mod (n-1). */
  function Takahashi(inv: nat, n: nat): (r: nat)
    requires n >= 2
    ensures r <= inv
    ensures r == 0 <==> inv == 0
  {
    var q, m := inv / (n - 1), inv % (n - 1);
    assert inv == q * (n - 1) + m;
    MulLeft(1, n - 1, q);
    q + m
  }

  /** The cell read at step `i` of a column-major walk; it is its own
      inverse on 0 .. n²-1. */
  function Transpose(i: int, n: int): int
    requires n >= 1
  {
    n * (i % n) + i / n
  }

  lemma TransposeInvolution(i: int, n: int)
    requires n >= 1 && 0 <= i < n * n
    ensures 0 <= Transpose(i, n) < n * n
    ensures Transpose(Transpose(i, n), n) == i
  {
    Coords(i, n);
    var r, c := i / n, i % n;
    var t := Transpose(i, n);
    assert t == c * n + r;
    CellInRange(c, r, n);
    DivModOf(c, r, n);
  }

  /** `_idealHor`: the label tile `v` (at index v-1) receives when the board
      is read column by column. */
  function IdealHor(n: nat): seq<int>
    requires n >= 1
  {
    seq(n * n, t => Transpose(t, n) + 1)
  }

  /** `_idealHor` is a permutation of 1 .. n². */
  lemma IdealHorPermutation(n: nat)
    requires n >= 1
    ensures forall t :: 0 <= t < n * n ==> 1 <= IdealHor(n)[t] <= n * n
    ensures forall t, u :: 0 <= t < u < n * n ==> IdealHor(n)[t] != IdealHor(n)[u]
  {
    forall t | 0 <= t < n * n
      ensures 1 <= IdealHor(n)[t] <= n * n
    {
      TransposeInvolution(t, n);
    }
    forall t, u | 0 <= t < u < n * n
      ensures IdealHor(n)[t] != IdealHor(n)[u]
    {
      TransposeInvolution(t, n);
      TransposeInvolution(u, n);
    }
  }

  /** The relabelled tile, 0 where `_idealHor` has no entry. */
  function Relabel(v: int, n: nat): int
    requires n >= 1
  {
    if 1 <= v <= n * n then IdealHor(n)[v - 1] else 0
  }

  /** The board read column by column with every tile relabelled through
      `_idealHor` (the horizontal mode of `_inversionCount`). */
  function HorView(s: seq<int>, n: nat): (r: seq<int>)
    requires n >= 1 && |s| == n * n
    ensures |r| == |s|
  {
    seq(|s|, i requires 0 <= i < |s| =>
      TransposeInvolution(i, n);
      Relabel(s[Transpose(i, n)], n))
  }

  lemma HorViewAt(s: seq<int>, n: nat, i: int)
    requires n >= 1 && |s| == n * n && 0 <= i < n * n
    ensures 0 <= Transpose(i, n) < n * n
    ensures HorView(s, n)[i] == Relabel(s[Transpose(i, n)], n)
  {
    TransposeInvolution(i, n);
  }

  function HorInversions(s: seq<int>, n: nat): nat
    requires n >= 1 && |s| == n * n
  {
    Inversions(HorView(s, n))
  }

  /** The goal board has no inversions in either reading; the column-major
      relabelled goal board is the goal board again. */
  lemma GoalInversions(n: nat)
    requires n >= 1
    ensures Inversions(Goal(n)) == 0
    ensures HorView(Goal(n), n) == Goal(n)
    ensures HorInversions(Goal(n), n) == 0
  {
    AscendingNoInversions(Goal(n));
    var g := Goal(n);
    forall i | 0 <= i < n * n
      ensures HorView(g, n)[i] == g[i]
    {
      GoalHorCell(n, i);
    }
  }

  lemma GoalHorCell(n: nat, i: int)
    requires n >= 1 && 0 <= i < n * n
    ensures HorView(Goal(n), n)[i] == Goal(n)[i]
  {
    TransposeInvolution(i, n);
    var c := Transpose(i, n);
    TransposeInvolution(c, n);
    if c == n * n - 1 {
      Coords(n * n - 1, n);
      assert n * n - 1 == (n - 1) * n + (n - 1);
      DivModOf(n - 1, n - 1, n);
      assert Transpose(c, n) == n * n - 1;
    } else {
      assert Goal(n)[c] == c + 1;
      assert Relabel(c + 1, n) == Transpose(c, n) + 1;
      if i == n * n - 1 {
        Coords(n * n - 1, n);
        assert n * n - 1 == (n - 1) * n + (n - 1);
        DivModOf(n - 1, n - 1, n);
        assert false;
      }
    }
  }

  /** The index of the first blank, if any (the `for … in` search). */
  function FirstZero(s: seq<int>): (r: Option<nat>)
    ensures r.Some? ==> r.value < |s| && s[r.value] == 0 && forall i :: 0 <= i < r.value ==> s[i] != 0
    ensures r.None? ==> forall i :: 0 <= i < |s| ==> s[i] != 0
  {
    if s == [] then None
    else if s[0] == 0 then Some(0)
    else match FirstZero(s[1..])
      case None => None
      case Some(k) => Some(k + 1)
  }

  /** The rule of `_validatePuzzle` for a board of side `n`: odd sides need an
      even inversion count; even sides need the blank's row, counted from
      the bottom, and the inversion count to differ in parity.  A board
      without a blank has no row parity (the source computes NaN). */
  predicate Solvable(s: seq<int>, n: nat)
  {
    var invOdd := Inversions(s) % 2 == 1;
    if n % 2 == 1 then !invOdd
    else
      var rowOdd := match FirstZero(s)
        case None => false
        case Some(b) => n >= 1 && (n - b / n) % 2 == 1;
      Xor(rowOdd, invOdd)
  }

  /** The goal board passes the solvability rule. */
  lemma GoalSolvable(n: nat)
    requires n >= 1
    ensures Solvable(Goal(n), n)
  {
    GoalInversions(n);
    GoalFirstZero(n);
    LastCell(n);
    var rowOdd := (n - (n * n - 1) / n) % 2 == 1;
    assert rowOdd;
  }

  lemma GoalFirstZero(n: nat)
    requires n >= 1
    ensures FirstZero(Goal(n)) == Some(n * n - 1)
  {
    var g := Goal(n);
    assert g[n * n - 1] == 0;
  }
}
