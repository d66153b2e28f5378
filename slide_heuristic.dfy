/** The heuristic of `findH` in slidePuzzle.js, from scratch: the Manhattan
    distance of every tile plus 2 for every linear conflict seen from each
    tile of the pair, per row and per column. */
module SlideHeuristic {
  import opened Arith
  import opened IntSums
  import opened SlideBoard

  /** The two directions a tile's distance and conflicts are measured in. */
  datatype Axis = Rows | Cols

  function Abs(x: int): nat
  {
    if x < 0 then -x else x
  }

  /** JavaScript's `%` on integers: the remainder takes the dividend's sign
      (so the blank's goal column, `(0 - 1) % n`, is -1). */
  function JsRem(a: int, n: int): (r: int)
    requires n >= 1
    ensures -n < r < n && (a - r) % n == 0
    ensures a >= 0 ==> r == a % n
    ensures a < 0 ==> r <= 0
  {
    if a >= 0 then
      RemainderStep(a, n);
      a % n
    else
      RemainderStep(-a, n);
      -((-a) % n)
  }

  lemma RemainderStep(b: int, n: int)
    requires b >= 0 && n >= 1
    ensures (b - b % n) % n == 0 && (-b + b % n) % n == 0
  {
    var q, m := b / n, b % n;
    assert b == q * n + m;
    DivModOf(q, 0, n);
    DivModOf(-q, 0, n);
    assert b - m == q * n + 0;
    assert -b + m == (-q) * n + 0;
  }

  /** `Math.floor((v - 1) / n)`: the row tile `v` belongs in. */
  function GoalRow(v: int, n: int): int
    requires n >= 1
  {
    (v - 1) / n
  }

  /** `(v - 1) % n`: the column tile `v` belongs in. */
  function GoalCol(v: int, n: int): int
    requires n >= 1
  {
    JsRem(v - 1, n)
  }

  /** The row (for `Rows`) or column (for `Cols`) holding cell `i`. */
  function Line(i: int, a: Axis, n: int): int
    requires n >= 1
  {
    if a == Rows then i / n else i % n
  }

  /** The position of cell `i` along its line: its column within a row, its
      row within a column. */
  function Pos(i: int, a: Axis, n: int): int
    requires n >= 1
  {
    if a == Rows then i % n else i / n
  }

  /** The cell at position `pos` of line `line`. */
  function CellAt(line: int, pos: int, a: Axis, n: int): int
  {
    if a == Rows then line * n + pos else pos * n + line
  }

  function GoalLine(v: int, a: Axis, n: int): int
    requires n >= 1
  {
    if a == Rows then GoalRow(v, n) else GoalCol(v, n)
  }

  /** The scan of `findH` at position `test` of `line`, made for tile `v`
      at position `pos`: the tile there belongs in this line and is out of
      order with `v` (larger before it, or a smaller non-blank after it). */
  predicate LineConflict(s: seq<int>, n: int, a: Axis, line: int, pos: int, v: int, test: int)
    requires n >= 1
  {
    var k := CellAt(line, test, a, n);
    0 <= k < |s| && GoalLine(s[k], a, n) == line &&
    (if test < pos then s[k] > v else s[k] < v && s[k] != 0)
  }

  /** The number of conflicts the scan of one line finds for tile `v`. */
  function LineConflicts(s: seq<int>, n: int, a: Axis, line: int, pos: int, v: int): nat
    requires n >= 1
  {
    Count(0, n, Conflicts(s, n, a, line, pos, v))
  }

  /** The scan of one line as a predicate on the scanned position. */
  function Conflicts(s: seq<int>, n: int, a: Axis, line: int, pos: int, v: int): int -> bool
    requires n >= 1
  {
    test => LineConflict(s, n, a, line, pos, v, test)
  }

  /** How far tile `v` at cell `i` is from its goal row or goal column. */
  function Dist(v: int, i: int, a: Axis, n: int): nat
    requires n >= 1
  {
    Abs(GoalLine(v, a, n) - Line(i, a, n))
  }

  /** The distance along one axis, plus 2 per conflict when the tile is in
      its goal line. */
  function AxisScore(s: seq<int>, n: int, i: int, a: Axis): nat
    requires n >= 1 && 0 <= i < |s|
  {
    var d := Dist(s[i], i, a, n);
    d + if d == 0 then 2 * LineConflicts(s, n, a, Line(i, a, n), Pos(i, a, n), s[i]) else 0
  }

  /** What the from-scratch loop of `findH` adds for cell `i`. */
  function TileScore(s: seq<int>, n: int, i: int): nat
    requires n >= 1
  {
    if 0 <= i < |s| && s[i] != 0 then AxisScore(s, n, i, Rows) + AxisScore(s, n, i, Cols) else 0
  }

  /** The `acc` of `findH` computed from scratch. */
  function ManhattanLinear(s: seq<int>, n: int): int
    requires n >= 1
  {
    Sum(0, |s|, TileScores(s, n))
  }

  /** The per-cell scores of a board, as a function of the cell. */
  function TileScores(s: seq<int>, n: int): int -> int
    requires n >= 1
  {
    i => TileScore(s, n, i)
  }

  /** The Manhattan distance of a tile, without conflicts. */
  function TileDistance(s: seq<int>, n: int, i: int): nat
    requires n >= 1
  {
    if 0 <= i < |s| && s[i] != 0 then Dist(s[i], i, Rows, n) + Dist(s[i], i, Cols, n) else 0
  }

  /** The sum of the tiles' Manhattan distances. */
  function Manhattan(s: seq<int>, n: int): int
    requires n >= 1
  {
    Sum(0, |s|, TileDistances(s, n))
  }

  function TileDistances(s: seq<int>, n: int): int -> int
    requires n >= 1
  {
    i => TileDistance(s, n, i)
  }

  /** The `acc` of the incremental branch of `findH`, for a board `s` whose
      tile at `last` has just slid out of `blank`'s cell, given the previous
      board's `acc`: only the moved tile's distance along the axis of the
      slide changes, by one, and its conflicts in the line it entered are
      added (4 each, one pair seen from both tiles) or those in the line it
      left are taken away. */
  function IncrementalAcc(s: seq<int>, n: int, blank: int, last: int, acc: int): int
    requires n >= 1 && 0 <= last < |s|
  {
    var a := if Abs(blank - last) != 1 then Rows else Cols;
    var moved := s[last];
    var line, lastLine, pos := Line(last, a, n), Line(blank, a, n), Pos(last, a, n);
    var dist := Abs(GoalLine(moved, a, n) - line);
    var prevDist := Abs(GoalLine(moved, a, n) - lastLine);
    var acc1 := if dist > prevDist then acc + 1 else acc - 1;
    if dist == 0 then acc1 + 4 * LineConflicts(s, n, a, line, pos, moved)
    else if prevDist == 0 then acc1 - 4 * LineConflicts(s, n, a, lastLine, pos, moved)
    else acc1
  }

  /** Conflicts only add, so `acc` is at least the Manhattan distance, which
      is never negative. */
  lemma ManhattanLinearAtLeastManhattan(s: seq<int>, n: int)
    requires n >= 1
    ensures 0 <= Manhattan(s, n) <= ManhattanLinear(s, n)
  {
    SumNonNegative(0, |s|, TileDistances(s, n));
    SumMonotone(0, |s|, TileDistances(s, n), TileScores(s, n));
  }

  /** Row and column of a cell given as `row * n + col`. */
  lemma CellLines(i: int, row: int, col: int, n: int)
    requires n >= 1 && 0 <= col < n && i == row * n + col
    ensures Line(i, Rows, n) == row && Pos(i, Rows, n) == col
    ensures Line(i, Cols, n) == col && Pos(i, Cols, n) == row
  {
    DivModOf(row, col, n);
  }

  /** Every tile of the goal board is at distance 0 with no conflicts. */
  lemma GoalTileScore(n: int, i: int)
    requires n >= 2 && 0 <= i < n * n
    ensures TileScore(Goal(n), n, i) == 0
  {
    var g := Goal(n);
    if g[i] != 0 {
      Coords(i, n);
      var row, col := i / n, i % n;
      var v := i + 1;
      assert g[i] == v;
      assert GoalRow(v, n) == row && GoalCol(v, n) == col;
      CellLines(i, row, col, n);
      forall test | 0 <= test < n
        ensures !LineConflict(g, n, Rows, row, col, v, test)
      {
        GoalNoRowConflict(n, row, col, test);
      }
      forall test | 0 <= test < n
        ensures !LineConflict(g, n, Cols, col, row, v, test)
      {
        GoalNoColConflict(n, row, col, test);
      }
      CountNone(0, n, Conflicts(g, n, Rows, row, col, v));
      CountNone(0, n, Conflicts(g, n, Cols, col, row, v));
    }
  }

  lemma GoalNoRowConflict(n: int, row: int, col: int, test: int)
    requires n >= 2 && 0 <= row < n && 0 <= col < n && 0 <= test < n
    requires row * n + col != n * n - 1
    ensures !LineConflict(Goal(n), n, Rows, row, col, row * n + col + 1, test)
  {
    CellInRange(row, test, n);
    CellInRange(row, col, n);
  }

  lemma GoalNoColConflict(n: int, row: int, col: int, test: int)
    requires n >= 2 && 0 <= row < n && 0 <= col < n && 0 <= test < n
    requires row * n + col != n * n - 1
    ensures !LineConflict(Goal(n), n, Cols, col, row, row * n + col + 1, test)
  {
    var k := test * n + col;
    var v := row * n + col + 1;
    CellInRange(test, col, n);
    CellInRange(row, col, n);
    assert CellAt(col, test, Cols, n) == k;
    if Goal(n)[k] != 0 {
      assert Goal(n)[k] == k + 1;
      if test < row {
        MulLeft(test + 1, row, n);
        assert k + 1 < v;
      } else if test > row {
        MulLeft(row + 1, test, n);
        assert k + 1 > v;
      }
    }
  }

  /** The goal board scores 0. */
  lemma GoalScoresZero(n: int)
    requires n >= 2
    ensures ManhattanLinear(Goal(n), n) == 0
  {
    forall i | 0 <= i < n * n
      ensures TileScore(Goal(n), n, i) == 0
    {
      GoalTileScore(n, i);
    }
    SumZero(0, n * n, TileScores(Goal(n), n));
  }

  /** A permutation board scoring 0 is the goal board: `h === 0` means
      solved. */
  lemma ZeroScoreIsGoal(s: seq<int>, n: int)
    requires n >= 2 && |s| == n * n && IsPermutation(s)
    requires ManhattanLinear(s, n) == 0
    ensures s == Goal(n)
  {
    TilesScoreZero(s, n);
    AllTilesInPlace(s, n);
    InPlaceIsGoal(s, n);
  }

  lemma TilesScoreZero(s: seq<int>, n: int)
    requires n >= 1 && ManhattanLinear(s, n) == 0
    ensures forall i :: 0 <= i < |s| ==> TileScore(s, n, i) == 0
  {
    var F := TileScores(s, n);
    SumZeroOnlyIfAllZero(0, |s|, F);
    forall i | 0 <= i < |s|
      ensures TileScore(s, n, i) == 0
    {
      assert F(i) == 0;
    }
  }

  lemma AllTilesInPlace(s: seq<int>, n: int)
    requires n >= 2 && forall i :: 0 <= i < |s| ==> 0 <= s[i]
    requires forall i :: 0 <= i < |s| ==> TileScore(s, n, i) == 0
    ensures InPlace(s)
  {
    forall i | 0 <= i < |s|
      ensures s[i] == i + 1 || s[i] == 0
    {
      ZeroTileInPlace(s, n, i);
    }
  }

  lemma ZeroTileInPlace(s: seq<int>, n: int, i: int)
    requires n >= 2 && 0 <= i < |s| && 0 <= s[i]
    requires TileScore(s, n, i) == 0
    ensures s[i] == i + 1 || s[i] == 0
  {
    if s[i] != 0 {
      var v := s[i];
      assert Dist(v, i, Rows, n) == 0 && Dist(v, i, Cols, n) == 0;
      SameCell(v - 1, i, n);
    }
  }

  lemma SameCell(x: int, i: int, n: int)
    requires n >= 1 && 0 <= x && 0 <= i && x / n == i / n && x % n == i % n
    ensures x == i
  {
    assert x == (x / n) * n + x % n;
    assert i == (i / n) * n + i % n;
  }
}
