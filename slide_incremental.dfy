/** Why the incremental branch of `findH` (slidePuzzle.js) is exact: after a
    legal slide, the `acc` it derives from the previous board's `acc` is
    the `acc` the from-scratch loop computes on the new board. */
module SlideIncremental {
  import opened Arith
  import opened Seqs
  import opened IntSums
  import opened SlideBoard
  import opened SlideHeuristic
  import opened SlideInversions

  /** The axis along which a slide moves its tile: U and D change the row. */
  function AxisOf(m: Move): Axis
  {
    if IsVertical(m) then Rows else Cols
  }

  function Other(a: Axis): Axis
  {
    if a == Rows then Cols else Rows
  }

  /** A board `P` whose blank is at `p`, about to receive the tile at `q`,
      one step along the lines of axis `a`. */
  predicate SlideSetup(P: seq<int>, n: int, p: int, q: int, a: Axis)
  {
    n >= 2 && |P| == n * n && 0 <= p < n * n && 0 <= q < n * n &&
    P[p] == 0 && P[q] != 0 &&
    Pos(q, a, n) == Pos(p, a, n) &&
    (Line(q, a, n) == Line(p, a, n) + 1 || Line(q, a, n) == Line(p, a, n) - 1)
  }

  // ---------------------------------------------------------------------
  // Geometry of lines and positions

  lemma OtherAxis(i: int, a: Axis, n: int)
    requires n >= 1
    ensures Line(i, Other(a), n) == Pos(i, a, n) && Pos(i, Other(a), n) == Line(i, a, n)
  {
  }

  /** A cell is the cell at its own line and position. */
  lemma CellOfLine(i: int, a: Axis, n: int)
    requires n >= 1 && 0 <= i < n * n
    ensures 0 <= Line(i, a, n) < n && 0 <= Pos(i, a, n) < n
    ensures CellAt(Line(i, a, n), Pos(i, a, n), a, n) == i
  {
    Coords(i, n);
  }

  /** The cell at line `l`, position `x` has that line and that position. */
  lemma LineOfCell(l: int, x: int, a: Axis, n: int)
    requires n >= 1 && 0 <= l < n && 0 <= x < n
    ensures 0 <= CellAt(l, x, a, n) < n * n
    ensures Line(CellAt(l, x, a, n), a, n) == l && Pos(CellAt(l, x, a, n), a, n) == x
  {
    if a == Rows {
      DivModOf(l, x, n);
      CellInRange(l, x, n);
    } else {
      DivModOf(x, l, n);
      CellInRange(x, l, n);
    }
  }

  /** Two cells with the same line and position are the same cell. */
  lemma SameLinePos(i: int, j: int, a: Axis, n: int)
    requires n >= 1 && 0 <= i < n * n && 0 <= j < n * n
    requires Line(i, a, n) == Line(j, a, n) && Pos(i, a, n) == Pos(j, a, n)
    ensures i == j
  {
    CellOfLine(i, a, n);
    CellOfLine(j, a, n);
  }

  /** The blank belongs in no line: its goal row and goal column are -1. */
  lemma BlankOffBoard(a: Axis, n: int)
    requires n >= 2
    ensures GoalLine(0, a, n) == -1
  {
    DivModOf(-1, n - 1, n);
    assert -1 * n + (n - 1) == -1;
  }

  /** A legal slide moves its tile one step along the lines of its axis,
      and the blank and the tile are one apart exactly for R and L. */
  lemma SlideGeometry(P: seq<int>, p: int, m: Move, n: int)
    requires n >= 2 && |P| == n * n && IsPermutation(P) && 0 <= p < n * n && P[p] == 0
    requires m in ValidMoves(p, n)
    ensures 0 <= Target(p, m, n) < n * n
    ensures SlideSetup(P, n, p, Target(p, m, n), AxisOf(m))
    ensures Abs(p - Target(p, m, n)) != 1 <==> AxisOf(m) == Rows
  {
    Coords(p, n);
    var row, col := p / n, p % n;
    StepTo(p, m, row, col, n);
    var q := Target(p, m, n);
    assert q != p;
    assert P[q] != P[p];
  }

  // ---------------------------------------------------------------------
  // Sums over the cells of one line

  /** The summand of a cell function along line `l`, by position. */
  function OnLine(F: int -> int, l: int, a: Axis, n: int): int -> int
  {
    x => F(CellAt(l, x, a, n))
  }

  /** A cell function that vanishes off line `l` sums to its sum along `l`. */
  lemma LineSupportSum(F: int -> int, l: int, a: Axis, n: int)
    requires n >= 1 && 0 <= l < n
    requires forall i :: 0 <= i < n * n && Line(i, a, n) != l ==> F(i) == 0
    ensures Sum(0, n * n, F) == Sum(0, n, OnLine(F, l, a, n))
  {
    if a == Rows {
      RowSupportSum(F, l, n);
    } else {
      ColumnSupportSum(n, F, l, n);
    }
  }

  lemma RowSupportSum(F: int -> int, l: int, n: int)
    requires n >= 1 && 0 <= l < n
    requires forall i :: 0 <= i < n * n && i / n != l ==> F(i) == 0
    ensures Sum(0, n * n, F) == Sum(0, n, OnLine(F, l, Rows, n))
  {
    CellInRange(l, 0, n);
    CellInRange(l, n - 1, n);
    var lo := l * n;
    var hi := lo + n;
    SumSplit(0, lo, n * n, F);
    SumSplit(lo, hi, n * n, F);
    forall i | 0 <= i < lo
      ensures F(i) == 0
    {
      OutsideRow(i, l, lo, n);
    }
    SumZero(0, lo, F);
    forall i | hi <= i < n * n
      ensures F(i) == 0
    {
      OutsideRow(i, l, lo, n);
    }
    SumZero(hi, n * n, F);
    var G := OnLine(F, l, Rows, n);
    forall x | 0 <= x < n
      ensures G(x) == F(x + lo)
    {
      assert CellAt(l, x, Rows, n) == x + lo;
    }
    SumShift(0, n, lo, F, G);
  }

  lemma OutsideRow(i: int, l: int, lo: int, n: int)
    requires n >= 1 && 0 <= i && lo == l * n && (i < lo || lo + n <= i)
    ensures i / n != l
  {
    assert i == (i / n) * n + i % n;
  }

  /** The column version, over the first `k` rows. */
  lemma {:induction false} ColumnSupportSum(k: nat, F: int -> int, l: int, n: int)
    requires n >= 1 && 0 <= l < n && k <= n
    requires forall i :: 0 <= i < n * n && i % n != l ==> F(i) == 0
    ensures Sum(0, k * n, F) == Sum(0, k, OnLine(F, l, Cols, n))
  {
    if k > 0 {
      var lo := (k - 1) * n;
      var hi := lo + n;
      assert hi == k * n;
      MulLeft(k, n, n);
      ColumnSupportSum(k - 1, F, l, n);
      assert Sum(0, lo, F) == Sum(0, k - 1, OnLine(F, l, Cols, n));
      SumSplit(0, lo, hi, F);
      forall i | lo <= i < hi && i != lo + l
        ensures F(i) == 0
      {
        InsideBlock(i, k - 1, lo, n);
      }
      SumSingle(lo, hi, lo + l, F);
      assert OnLine(F, l, Cols, n)(k - 1) == F(CellAt(l, k - 1, Cols, n));
      assert CellAt(l, k - 1, Cols, n) == lo + l;
      assert Sum(0, k, OnLine(F, l, Cols, n)) == Sum(0, k - 1, OnLine(F, l, Cols, n)) + OnLine(F, l, Cols, n)(k - 1);
    }
  }

  lemma InsideBlock(i: int, r: int, lo: int, n: int)
    requires n >= 1 && lo == r * n && lo <= i < lo + n
    ensures i % n == i - lo
  {
    DivModOf(r, i - lo, n);
  }

  // ---------------------------------------------------------------------
  // The conflicts one tile adds to the other tiles of its line

  /** What the tile at cell `c` contributes to the score of cell `i` on the
      same line of axis `a`: 2 when `i`'s tile is in its goal line and the
      scan made for it finds the tile at `c`. */
  function PairGain(s: seq<int>, n: int, c: int, a: Axis): int -> int
    requires n >= 1
  {
    i =>
      if 0 <= i < |s| && i != c && Line(i, a, n) == Line(c, a, n) && s[i] != 0 &&
         Dist(s[i], i, a, n) == 0 && LineConflict(s, n, a, Line(c, a, n), Pos(i, a, n), s[i], Pos(c, a, n))
      then 2 else 0
  }

  /** The tile at `c` adds to the tiles of its line exactly what it finds
      itself: a conflict is a symmetric relation between two tiles. */
  lemma PairGainSum(s: seq<int>, n: int, c: int, a: Axis)
    requires n >= 2 && |s| == n * n && 0 <= c < |s| && s[c] != 0
    ensures Sum(0, n * n, PairGain(s, n, c, a)) ==
              if Dist(s[c], c, a, n) == 0
              then 2 * LineConflicts(s, n, a, Line(c, a, n), Pos(c, a, n), s[c]) else 0
  {
    var F := PairGain(s, n, c, a);
    var l, pos, t := Line(c, a, n), Pos(c, a, n), s[c];
    CellOfLine(c, a, n);
    LineSupportSum(F, l, a, n);
    var G := OnLine(F, l, a, n);
    var P := Conflicts(s, n, a, l, pos, t);
    var w := if Dist(t, c, a, n) == 0 then 2 else 0;
    var I := x => if P(x) then 1 else 0;
    var W := x => w * I(x);
    forall x | 0 <= x < n
      ensures G(x) == W(x)
    {
      LineOfCell(l, x, a, n);
      var i := CellAt(l, x, a, n);
      if x == pos {
        assert i == c;
      } else {
        if i == c {
          assert false;
        }
        BlankOffBoard(a, n);
      }
    }
    SumCongruent(0, n, G, W);
    SumScale(0, n, w, I, W);
    CountIsSum(0, n, P, I);
  }

  // ---------------------------------------------------------------------
  // How one slide changes each cell's score

  /** A scan reads one cell; boards that agree there scan alike. */
  lemma ScanAgrees(C: seq<int>, P: seq<int>, n: int, a: Axis, l: int, pos: int, v: int, x: int)
    requires n >= 1 && |C| == |P|
    requires 0 <= CellAt(l, x, a, n) < |C| ==> C[CellAt(l, x, a, n)] == P[CellAt(l, x, a, n)]
    ensures LineConflict(C, n, a, l, pos, v, x) == LineConflict(P, n, a, l, pos, v, x)
  {
  }

  /** A line of axis `a` through neither `p` nor `q` scans alike before and
      after the slide. */
  lemma UntouchedLine(P: seq<int>, C: seq<int>, n: int, p: int, q: int, a: Axis, l: int, pos: int, v: int)
    requires n >= 1 && |P| == n * n && 0 <= p < n * n && 0 <= q < n * n && C == Swap(P, p, q)
    requires 0 <= l < n && Line(p, a, n) != l && Line(q, a, n) != l
    ensures LineConflicts(C, n, a, l, pos, v) == LineConflicts(P, n, a, l, pos, v)
  {
    forall x | 0 <= x < n
      ensures Conflicts(C, n, a, l, pos, v)(x) == Conflicts(P, n, a, l, pos, v)(x)
    {
      LineOfCell(l, x, a, n);
      ScanAgrees(C, P, n, a, l, pos, v, x);
    }
    CountCongruent(0, n, Conflicts(C, n, a, l, pos, v), Conflicts(P, n, a, l, pos, v));
  }

  /** Along the axis across the slide, every other tile keeps its score:
      the moved tile stays in the same line of that axis and on the same
      side of every other tile of it. */
  lemma CrossAxisSame(P: seq<int>, C: seq<int>, n: int, p: int, q: int, a: Axis, i: int)
    requires SlideSetup(P, n, p, q, a) && C == Swap(P, p, q)
    requires 0 <= i < n * n && i != p && i != q
    ensures AxisScore(C, n, i, Other(a)) == AxisScore(P, n, i, Other(a))
  {
    var b := Other(a);
    var u := P[i];
    var l, x := Line(i, b, n), Pos(i, b, n);
    OtherAxis(i, a, n);
    OtherAxis(p, a, n);
    OtherAxis(q, a, n);
    CellOfLine(i, b, n);
    CellOfLine(p, b, n);
    CellOfLine(q, b, n);
    if l != Line(p, b, n) {
      UntouchedLine(P, C, n, p, q, b, l, x, u);
    } else {
      var jp, jq := Pos(p, b, n), Pos(q, b, n);
      var PC, PP := Conflicts(C, n, b, l, x, u), Conflicts(P, n, b, l, x, u);
      forall y | 0 <= y < n && y != jp && y != jq
        ensures PC(y) == PP(y)
      {
        LineOfCell(l, y, b, n);
        ScanAgrees(C, P, n, b, l, x, u, y);
      }
      if x == jp {
        SameLinePos(i, p, b, n);
      }
      if x == jq {
        SameLinePos(i, q, b, n);
      }
      BlankOffBoard(b, n);
      assert !PP(jp) && !PC(jq);
      assert PC(jp) == PP(jq);
      if jp < jq {
        CountTwoDiff(0, n, PC, PP, jp, jq);
      } else {
        CountTwoDiff(0, n, PC, PP, jq, jp);
      }
    }
  }

  /** Along the axis of the slide, another tile gains the conflicts it now
      has with the moved tile and loses those it had. */
  lemma AlongAxisDelta(P: seq<int>, C: seq<int>, n: int, p: int, q: int, a: Axis, i: int)
    requires SlideSetup(P, n, p, q, a) && C == Swap(P, p, q)
    requires 0 <= i < n * n && i != p && i != q && P[i] != 0
    ensures AxisScore(C, n, i, a) - AxisScore(P, n, i, a) ==
              PairGain(C, n, p, a)(i) - PairGain(P, n, q, a)(i)
  {
    var u := P[i];
    var l, x := Line(i, a, n), Pos(i, a, n);
    var pos := Pos(p, a, n);
    CellOfLine(i, a, n);
    CellOfLine(p, a, n);
    CellOfLine(q, a, n);
    if Dist(u, i, a, n) == 0 {
      var PC, PP := Conflicts(C, n, a, l, x, u), Conflicts(P, n, a, l, x, u);
      BlankOffBoard(a, n);
      if l == Line(p, a, n) || l == Line(q, a, n) {
        forall y | 0 <= y < n && y != pos
          ensures PC(y) == PP(y)
        {
          LineOfCell(l, y, a, n);
          ScanAgrees(C, P, n, a, l, x, u, y);
        }
        CountOneDiff(0, n, PC, PP, pos);
      } else {
        UntouchedLine(P, C, n, p, q, a, l, x, u);
      }
    }
  }

  /** Every cell other than the two the slide exchanges. */
  lemma OtherCellDelta(P: seq<int>, C: seq<int>, n: int, p: int, q: int, a: Axis, i: int)
    requires SlideSetup(P, n, p, q, a) && C == Swap(P, p, q)
    requires 0 <= i < n * n && i != p && i != q
    ensures TileScore(C, n, i) - TileScore(P, n, i) ==
              PairGain(C, n, p, a)(i) - PairGain(P, n, q, a)(i)
  {
    if P[i] != 0 {
      CrossAxisSame(P, C, n, p, q, a, i);
      AlongAxisDelta(P, C, n, p, q, a, i);
      if a == Rows {
        assert TileScore(C, n, i) == AxisScore(C, n, i, a) + AxisScore(C, n, i, Other(a));
      } else {
        assert TileScore(C, n, i) == AxisScore(C, n, i, Other(a)) + AxisScore(C, n, i, a);
      }
    }
  }

  /** Every cell, the two the slide exchanges included. */
  lemma CellDelta(P: seq<int>, C: seq<int>, n: int, p: int, q: int, a: Axis, i: int)
    requires SlideSetup(P, n, p, q, a) && C == Swap(P, p, q) && 0 <= i < n * n
    ensures TileScore(C, n, i) - TileScore(P, n, i) ==
              (if i == p then TileScore(C, n, p) else 0) + (if i == q then -(TileScore(P, n, q) as int) else 0) +
              (PairGain(C, n, p, a)(i) + -1 * PairGain(P, n, q, a)(i))
  {
    if i == p || i == q {
      assert Line(p, a, n) != Line(q, a, n);
      NoGainAtEnds(P, C, n, p, q, a, i);
      assert P[p] == 0 && C[q] == 0;
    } else {
      OtherCellDelta(P, C, n, p, q, a, i);
    }
  }

  lemma NoGainAtEnds(P: seq<int>, C: seq<int>, n: int, p: int, q: int, a: Axis, i: int)
    requires n >= 1 && |P| == |C| && 0 <= p < |P| && 0 <= q < |P|
    requires Line(p, a, n) != Line(q, a, n) && (i == p || i == q)
    ensures PairGain(C, n, p, a)(i) == 0 && PairGain(P, n, q, a)(i) == 0
  {
  }

  /** The line the tile left scans alike for it before and after. */
  lemma LeftLineSame(P: seq<int>, C: seq<int>, n: int, p: int, q: int, a: Axis)
    requires SlideSetup(P, n, p, q, a) && C == Swap(P, p, q)
    ensures LineConflicts(P, n, a, Line(q, a, n), Pos(q, a, n), P[q]) ==
              LineConflicts(C, n, a, Line(q, a, n), Pos(q, a, n), P[q])
  {
    var l, pos, t := Line(q, a, n), Pos(q, a, n), P[q];
    CellOfLine(q, a, n);
    CellOfLine(p, a, n);
    forall y | 0 <= y < n
      ensures Conflicts(P, n, a, l, pos, t)(y) == Conflicts(C, n, a, l, pos, t)(y)
    {
      LineOfCell(l, y, a, n);
      if y != pos {
        ScanAgrees(C, P, n, a, l, pos, t, y);
      } else {
        BlankOffBoard(a, n);
      }
    }
    CountCongruent(0, n, Conflicts(P, n, a, l, pos, t), Conflicts(C, n, a, l, pos, t));
  }

  /** Across the slide the moved tile keeps its score. */
  lemma MovedCrossSame(P: seq<int>, C: seq<int>, n: int, p: int, q: int, a: Axis)
    requires SlideSetup(P, n, p, q, a) && C == Swap(P, p, q)
    ensures AxisScore(C, n, p, Other(a)) == AxisScore(P, n, q, Other(a))
  {
    var b := Other(a);
    var t := P[q];
    var l := Line(p, b, n);
    var jp, jq := Pos(p, b, n), Pos(q, b, n);
    OtherAxis(p, a, n);
    OtherAxis(q, a, n);
    CellOfLine(p, b, n);
    CellOfLine(q, b, n);
    BlankOffBoard(b, n);
    forall y | 0 <= y < n
      ensures Conflicts(C, n, b, l, jp, t)(y) == Conflicts(P, n, b, l, jq, t)(y)
    {
      LineOfCell(l, y, b, n);
      if y != jp && y != jq {
        ScanAgrees(C, P, n, b, l, jp, t, y);
      }
    }
    CountCongruent(0, n, Conflicts(C, n, b, l, jp, t), Conflicts(P, n, b, l, jq, t));
  }

  // ---------------------------------------------------------------------
  // The whole board

  /** The board's score changes by the moved tile's change and by what the
      moved tile adds to the line it enters and takes from the line it
      leaves. */
  lemma AccDifference(P: seq<int>, C: seq<int>, n: int, p: int, q: int, a: Axis)
    requires SlideSetup(P, n, p, q, a) && C == Swap(P, p, q)
    ensures ManhattanLinear(C, n) - ManhattanLinear(P, n) ==
              TileScore(C, n, p) - TileScore(P, n, q) +
              Sum(0, n * n, PairGain(C, n, p, a)) - Sum(0, n * n, PairGain(P, n, q, a))
  {
    var N := n * n;
    var TC, TP := TileScores(C, n), TileScores(P, n);
    var GC, GP := PairGain(C, n, p, a), PairGain(P, n, q, a);
    var Ends: int -> int := i => (if i == p then TileScore(C, n, p) else 0) + (if i == q then -(TileScore(P, n, q) as int) else 0);
    var NegGP: int -> int := i => -1 * GP(i);
    var Lines: int -> int := i => GC(i) + NegGP(i);
    var E: int -> int := i => Ends(i) + Lines(i);
    var D: int -> int := i => TC(i) - TP(i);
    forall i | 0 <= i < N
      ensures D(i) == E(i)
    {
      CellDelta(P, C, n, p, q, a, i);
    }
    SumAdd(0, N, TP, D, TC);
    SumCongruent(0, N, D, E);
    SumAdd(0, N, Ends, Lines, E);
    SumAdd(0, N, GC, NegGP, Lines);
    SumScale(0, N, -1, GP, NegGP);
    if p < q {
      SumPair(0, N, p, q, Ends);
    } else {
      SumPair(0, N, q, p, Ends);
    }
  }

  /** The incremental `acc` is the from-scratch `acc` of the new board, for
      a slide along either axis. */
  lemma IncrementalAccExact(P: seq<int>, n: int, p: int, q: int, a: Axis)
    requires SlideSetup(P, n, p, q, a)
    requires Abs(p - q) != 1 <==> a == Rows
    ensures IncrementalAcc(Swap(P, p, q), n, q, p, ManhattanLinear(P, n)) == ManhattanLinear(Swap(P, p, q), n)
  {
    var C := Swap(P, p, q);
    var t := P[q];
    var acc := ManhattanLinear(P, n);
    var dist: int, prevDist: int := Dist(t, p, a, n), Dist(t, q, a, n);
    var lc: int := LineConflicts(C, n, a, Line(p, a, n), Pos(p, a, n), t);
    var lcLeft: int := LineConflicts(C, n, a, Line(q, a, n), Pos(p, a, n), t);
    assert C[p] == t;
    var gainC: int, gainP: int := if dist == 0 then 2 * lc else 0, if prevDist == 0 then 2 * lcLeft else 0;
    AccDifference(P, C, n, p, q, a);
    PairGainSum(C, n, p, a);
    assert Sum(0, n * n, PairGain(C, n, p, a)) == gainC;
    PairGainSum(P, n, q, a);
    LeftLineSame(P, C, n, p, q, a);
    assert Sum(0, n * n, PairGain(P, n, q, a)) == gainP;
    MovedCrossSame(P, C, n, p, q, a);
    TileScoreAxes(C, n, p, a);
    TileScoreAxes(P, n, q, a);
    assert AxisScore(C, n, p, a) == dist + gainC;
    assert AxisScore(P, n, q, a) == prevDist + gainP;
    assert TileScore(C, n, p) - TileScore(P, n, q) == dist + gainC - prevDist - gainP;
    assert ManhattanLinear(C, n) - acc ==
             dist - prevDist + (if dist == 0 then 4 * lc else 0) - (if prevDist == 0 then 4 * lcLeft else 0);
    IncrementalAccValue(C, n, q, p, acc, a);
  }

  lemma TileScoreAxes(s: seq<int>, n: int, i: int, a: Axis)
    requires n >= 1 && 0 <= i < |s| && s[i] != 0
    ensures TileScore(s, n, i) == AxisScore(s, n, i, a) + AxisScore(s, n, i, Other(a))
  {
  }

  /** The incremental update in closed form: the moved tile's change of
      distance along the slide, then 4 per conflict in the line it entered or
      left. */
  lemma IncrementalAccValue(C: seq<int>, n: int, blank: int, last: int, acc: int, a: Axis)
    requires n >= 1 && 0 <= last < |C|
    requires Abs(blank - last) != 1 <==> a == Rows
    requires Line(last, a, n) == Line(blank, a, n) + 1 || Line(last, a, n) == Line(blank, a, n) - 1
    ensures var t := C[last];
            var dist, prevDist := Dist(t, last, a, n), Dist(t, blank, a, n);
            IncrementalAcc(C, n, blank, last, acc) ==
              acc + dist - prevDist +
              (if dist == 0 then 4 * LineConflicts(C, n, a, Line(last, a, n), Pos(last, a, n), t) else 0) -
              (if prevDist == 0 then 4 * LineConflicts(C, n, a, Line(blank, a, n), Pos(last, a, n), t) else 0)
  {
    var t := C[last];
    DistStep(GoalLine(t, a, n), Line(last, a, n), Line(blank, a, n));
  }

  /** Lines one apart are at distances one apart from any goal line, and
      not both at distance 0. */
  lemma DistStep(g: int, l: int, l': int)
    requires l == l' + 1 || l == l' - 1
    ensures Abs(g - l) - Abs(g - l') == 1 || Abs(g - l) - Abs(g - l') == -1
  {
  }

  /** `findH` after a legal slide, in its incremental branch, gives the
      from-scratch heuristic of the new board (slidePuzzle.js, the branch
      taken when the previous `acc` is known). */
  lemma IncrementalIsExact(P: seq<int>, n: int, p: int, m: Move)
    requires n >= 2 && |P| == n * n && IsPermutation(P) && 0 <= p < n * n && P[p] == 0
    requires m in ValidMoves(p, n)
    ensures 0 <= Target(p, m, n) < n * n
    ensures IncrementalAcc(Swap(P, p, Target(p, m, n)), n, Target(p, m, n), p, ManhattanLinear(P, n)) ==
              ManhattanLinear(Swap(P, p, Target(p, m, n)), n)
  {
    SlideGeometry(P, p, m, n);
    IncrementalAccExact(P, n, p, Target(p, m, n), AxisOf(m));
  }

  // ---------------------------------------------------------------------
  // The inversion score a slide leaves alone

  /** `NonZero` distributes over concatenation. */
  lemma {:induction false} NonZeroConcat(a: seq<int>, b: seq<int>)
    ensures NonZero(a + b) == NonZero(a) + NonZero(b)
    decreases |b|
  {
    if b != [] {
      var b', j := b[..|b| - 1], b[|b| - 1];
      NonZeroConcat(a, b');
      assert (a + b)[..|a + b| - 1] == a + b';
    } else {
      assert a + b == a;
    }
  }

  /** Exchanging the blank with its neighbour in a reading of the board
      keeps the order of the tiles, so the inversions. */
  lemma AdjacentBlankSwap(s: seq<int>, i: int, j: int)
    requires 0 <= i && j == i + 1 && j < |s| && (s[i] == 0 || s[j] == 0)
    ensures Inversions(Swap(s, i, j)) == Inversions(s)
  {
    AdjacentBlankSwapTiles(s, i);
    SameTilesSameInversions(Swap(s, i, j), s);
  }

  lemma AdjacentBlankSwapTiles(s: seq<int>, i: int)
    requires 0 <= i < |s| - 1 && (s[i] == 0 || s[i + 1] == 0)
    ensures NonZero(Swap(s, i, i + 1)) == NonZero(s)
  {
    var w := Swap(s, i, i + 1);
    var front, back := s[..i], s[i + 2..];
    var x, y := [s[i], s[i + 1]], [s[i + 1], s[i]];
    assert s == front + x + back;
    assert w == front + y + back;
    BlankPairNonZero(s[i], s[i + 1]);
    NonZeroMiddle(front, x, y, back);
  }

  /** Boards with the same tiles in the same order have the same count. */
  lemma SameTilesSameInversions(s: seq<int>, t: seq<int>)
    requires NonZero(s) == NonZero(t)
    ensures Inversions(s) == Inversions(t)
  {
    InversionsOfNonZero(s);
    InversionsOfNonZero(t);
  }

  /** A pair holding the blank keeps its tiles when reversed. */
  lemma BlankPairNonZero(a: int, b: int)
    requires a == 0 || b == 0
    ensures NonZero([a, b]) == NonZero([b, a])
  {
    NonZeroConcat([a], [b]);
    NonZeroConcat([b], [a]);
    assert [a] + [b] == [a, b];
    assert [b] + [a] == [b, a];
  }

  /** Replacing a middle part by one with the same tiles keeps the tiles. */
  lemma NonZeroMiddle(front: seq<int>, x: seq<int>, y: seq<int>, back: seq<int>)
    requires NonZero(x) == NonZero(y)
    ensures NonZero(front + x + back) == NonZero(front + y + back)
  {
    NonZeroConcat(front + x, back);
    NonZeroConcat(front + y, back);
    NonZeroConcat(front, x);
    NonZeroConcat(front, y);
  }

  /** A slide along a row leaves the row-major count alone, so `findH`
      keeps the `vert` it was given. */
  lemma RowSlideKeepsInversions(P: seq<int>, n: int, p: int, m: Move)
    requires n >= 2 && |P| == n * n && 0 <= p < n * n && P[p] == 0
    requires m in ValidMoves(p, n) && !IsVertical(m)
    ensures 0 <= Target(p, m, n) < n * n
    ensures Inversions(Swap(P, p, Target(p, m, n))) == Inversions(P)
  {
    MoveAllowed(p, n, m);
    var q := Target(p, m, n);
    if m == L && p == n * n - 1 {
      LastCell(n);
    }
    BlankSwapNeighbour(P, p, q);
  }

  /** Read column by column, a vertical slide exchanges the blank with its
      neighbour in the reading. */
  lemma HorViewOfSlide(P: seq<int>, n: int, p: int, q: int)
    requires n >= 1 && |P| == n * n && 0 <= p < n * n && 0 <= q < n * n
    ensures 0 <= Transpose(p, n) < n * n && 0 <= Transpose(q, n) < n * n
    ensures HorView(Swap(P, p, q), n) == Swap(HorView(P, n), Transpose(p, n), Transpose(q, n))
  {
    TransposeInvolution(p, n);
    TransposeInvolution(q, n);
    var C := Swap(P, p, q);
    var tp, tq := Transpose(p, n), Transpose(q, n);
    forall k | 0 <= k < n * n
      ensures HorView(C, n)[k] == Swap(HorView(P, n), tp, tq)[k]
    {
      TransposeInvolution(k, n);
    }
  }

  /** A slide along a column leaves the column-major count alone, so
      `findH` keeps the `hor` it was given. */
  lemma ColumnSlideKeepsHorInversions(P: seq<int>, n: int, p: int, m: Move)
    requires n >= 2 && |P| == n * n && 0 <= p < n * n && P[p] == 0
    requires m in ValidMoves(p, n) && IsVertical(m)
    ensures 0 <= Target(p, m, n) < n * n
    ensures HorInversions(Swap(P, p, Target(p, m, n)), n) == HorInversions(P, n)
  {
    var q := TransposeVertical(p, m, n);
    HorViewOfSlide(P, n, p, q);
    var tp, tq := Transpose(p, n), Transpose(q, n);
    var V := HorView(P, n);
    BlankInHorView(P, n, p);
    BlankSwapNeighbour(V, tp, tq);
  }

  /** Exchanging the blank with either neighbour keeps the inversions. */
  lemma BlankSwapNeighbour(s: seq<int>, i: int, j: int)
    requires 0 <= i < |s| && 0 <= j < |s| && s[i] == 0 && (j == i + 1 || j == i - 1)
    ensures Inversions(Swap(s, i, j)) == Inversions(s)
  {
    if j == i + 1 {
      AdjacentBlankSwap(s, i, j);
    } else {
      assert Swap(s, i, j) == Swap(s, j, i);
      AdjacentBlankSwap(s, j, i);
    }
  }

  /** Read column by column, a vertical slide moves the blank by one. */
  lemma TransposeVertical(p: int, m: Move, n: int) returns (q: int)
    requires n >= 2 && 0 <= p < n * n
    requires m in ValidMoves(p, n) && IsVertical(m)
    ensures q == Target(p, m, n) && 0 <= q < n * n
    ensures Transpose(q, n) == Transpose(p, n) + (if m == U then 1 else -1)
  {
    Coords(p, n);
    var row, col := p / n, p % n;
    StepTo(p, m, row, col, n);
    q := Target(p, m, n);
  }

  lemma BlankInHorView(P: seq<int>, n: int, p: int)
    requires n >= 1 && |P| == n * n && 0 <= p < n * n && P[p] == 0
    ensures 0 <= Transpose(p, n) < n * n && HorView(P, n)[Transpose(p, n)] == 0
  {
    TransposeInvolution(p, n);
  }
}
