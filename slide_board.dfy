/** The n×n sliding-tile board of slidePuzzle.js as a flat row-major array:
    cell `i` is row `i / n`, column `i % n`; tiles are 1 .. n²-1 and 0 is
    the blank. */
module SlideBoard {
  import opened Wrappers
  import opened Arith
  import opened Seqs

  /** A slide, named for the way the TILE moves into the blank: `R` moves
      the tile left of the blank rightwards, `U` the tile below the blank
      upwards, and so on. */
  datatype Move = R | L | U | D

  /** The message thrown by a slide that is not currently legal. */
  function InvalidMove(m: Move): string
  {
    match m
    case R => "invalid move: Right"
    case L => "invalid move: Left"
    case U => "invalid move: Up"
    case D => "invalid move: Down"
  }

  /** The slide that undoes `m`. */
  function Opposite(m: Move): (r: Move)
    ensures r != m && IsVertical(r) == IsVertical(m)
  {
    match m
    case R => L
    case L => R
    case U => D
    case D => U
  }

  /** Up and Down slides move a tile between rows. */
  predicate IsVertical(m: Move)
  {
    m == U || m == D
  }

  /** The position of `m` in the fixed order R, L, U, D. */
  function Rank(m: Move): nat
  {
    match m
    case R => 0
    case L => 1
    case U => 2
    case D => 3
  }

  function Square(k: int): int { k * k }

  lemma SquareMonotone(j: nat, k: nat)
    requires j <= k
    ensures Square(j) <= Square(k)
  {
    assert j * j <= j * k <= k * k;
  }

  /** `_sqrt`: the side of a square board of `len` cells, or "Invalid size".
      The source's floating-point tolerance test is taken as exact. */
  function Sqrt(len: nat): (r: Result<nat>)
    ensures r.Ok? ==> Square(r.value) == len
    ensures r.Err? ==> r.msg == "Invalid size" && forall k: nat :: Square(k) != len
  {
    SqrtFrom(len, 0)
  }

  function SqrtFrom(len: nat, k: nat): (r: Result<nat>)
    requires forall j: nat :: j < k ==> Square(j) != len
    ensures r.Ok? ==> Square(r.value) == len
    ensures r.Err? ==> r.msg == "Invalid size" && forall j: nat :: Square(j) != len
    decreases len - k
  {
    if Square(k) > len then
      assert forall j: nat :: j >= k ==> Square(j) != len by {
        forall j: nat | j >= k { SquareMonotone(k, j); }
      }
      Err("Invalid size")
    else if Square(k) == len then Ok(k)
    else
      assert k <= Square(k) by { if k > 0 { assert k * 1 <= k * k; } }
      SqrtFrom(len, k + 1)
  }

  /** `_XOR`, written as in the source with two conjunctions. */
  function Xor(a: bool, b: bool): (r: bool)
    ensures r <==> a != b
  {
    (a && !b) || (!a && b)
  }

  /** Every value 0 .. |s|-1 occurs exactly once. */
  predicate IsPermutation(s: seq<int>)
  {
    (forall i :: 0 <= i < |s| ==> 0 <= s[i] < |s|) &&
    (forall i, j :: 0 <= i < j < |s| ==> s[i] != s[j])
  }

  /** The values in the first `k` cells. */
  function Values(s: seq<int>, k: int): set<int>
    requires 0 <= k <= |s|
  {
    set i | 0 <= i < k :: s[i]
  }

  /** The numbers 0 .. k-1. */
  function Below(k: int): (r: set<int>)
    ensures forall x :: x in r <==> 0 <= x < k
  {
    if k <= 0 then {} else Below(k - 1) + {k - 1}
  }

  lemma {:induction false} ValuesSize(s: seq<int>, k: int)
    requires 0 <= k <= |s| && IsPermutation(s)
    ensures |Values(s, k)| == k
  {
    if k > 0 {
      ValuesSize(s, k - 1);
      assert Values(s, k) == Values(s, k - 1) + {s[k - 1]};
    } else {
      assert Values(s, k) == {};
    }
  }

  lemma {:induction false} BelowSize(k: nat)
    ensures |Below(k)| == k
  {
    if k > 0 {
      BelowSize(k - 1);
      var prev := Below(k - 1);
      assert k - 1 !in prev;
      assert Below(k) == prev + {k - 1};
    }
  }

  lemma SubsetSize(a: set<int>, b: set<int>)
    requires a <= b
    ensures |a| <= |b|
  {
    assert b == a + (b - a);
  }

  /** A permutation board holds every number below its length; in
      particular a non-empty one has a blank. */
  lemma PermutationHasEveryValue(s: seq<int>, v: int)
    requires IsPermutation(s) && 0 <= v < |s|
    ensures v in s
  {
    ValuesSize(s, |s|);
    BelowSize(|s|);
    if v !in Values(s, |s|) {
      SubsetSize(Values(s, |s|), Below(|s|) - {v});
      assert false;
    }
  }

  /** The goal board `[1, 2, …, n²-1, 0]` built by the numeric constructor. */
  function Goal(n: nat): seq<int>
  {
    seq(n * n, i => if i == n * n - 1 then 0 else i + 1)
  }

  /** Every cell holds its own number or the blank (the test in `isSolved`). */
  predicate InPlace(s: seq<int>)
  {
    forall i :: 0 <= i < |s| ==> s[i] == i + 1 || s[i] == 0
  }

  /** The legal slides for a blank at `b`, in the order R, L, U, D
      (`validMoves`). */
  function ValidMoves(b: int, n: int): (r: seq<Move>)
    requires n >= 1 && 0 <= b
    ensures forall i, j :: 0 <= i < j < |r| ==> Rank(r[i]) < Rank(r[j])
  {
    var col := b % n;
    var row := b / n;
    (if col != 0 then [R] else []) + (if col != n - 1 then [L] else []) +
    (if row != n - 1 then [U] else []) + (if row != 0 then [D] else [])
  }

  /** The cell whose tile slides into the blank at `b` under `m`. */
  function Target(b: int, m: Move, n: int): int
  {
    match m
    case R => b - 1
    case L => b + 1
    case U => b + n
    case D => b - n
  }

  /** The cell a legal slide pulls from, by row and column. */
  lemma StepTo(p: int, m: Move, row: int, col: int, n: int)
    requires n >= 1 && 0 <= row < n && 0 <= col < n && p == row * n + col
    requires p / n == row && p % n == col
    requires m in ValidMoves(p, n)
    ensures 0 <= Target(p, m, n) < n * n
    ensures Target(p, m, n) / n == row + (if m == U then 1 else if m == D then -1 else 0)
    ensures Target(p, m, n) % n == col + (if m == L then 1 else if m == R then -1 else 0)
  {
    MoveAllowed(p, n, m);
    match m
    case R => StepCell(row, col, 0, -1, n);
    case L => StepCell(row, col, 0, 1, n);
    case U => StepCell(row, col, 1, 0, n);
    case D => StepCell(row, col, -1, 0, n);
  }

  /** Moving a cell by `dr` rows and `dc` columns, staying on the board. */
  lemma StepCell(row: int, col: int, dr: int, dc: int, n: int)
    requires n >= 1 && 0 <= row + dr < n && 0 <= col + dc < n
    ensures var t := row * n + col + dr * n + dc;
            0 <= t < n * n && t / n == row + dr && t % n == col + dc
  {
    var r, c := row + dr, col + dc;
    assert row * n + col + dr * n + dc == r * n + c;
    DivModOf(r, c, n);
    CellInRange(r, c, n);
  }

  /** Which slides `validMoves` offers, by the blank's column and row: a
      slide is listed exactly when the blank is not on the edge it faces. */
  lemma MoveAllowed(b: int, n: int, m: Move)
    requires n >= 1 && 0 <= b
    ensures m in ValidMoves(b, n) <==>
            match m
            case R => b % n != 0
            case L => b % n != n - 1
            case U => b / n != n - 1
            case D => b / n != 0
  {
  }

  /** Cells `a` and `c` of an n×n board share an edge. */
  predicate Adjacent(a: int, c: int, n: int)
    requires n >= 1
  {
    var dr := a / n - c / n;
    var dc := a % n - c % n;
    (dr == 0 && (dc == 1 || dc == -1)) || (dc == 0 && (dr == 1 || dr == -1))
  }

  /** A slide is listed exactly when the cell it pulls from lies on the
      board next to the blank; so every listed slide stays in 0 .. n²-1. */
  lemma ValidMovesAreNeighbours(b: int, n: int, m: Move)
    requires n >= 1 && 0 <= b < n * n
    ensures m in ValidMoves(b, n) <==>
              0 <= Target(b, m, n) < n * n && Adjacent(b, Target(b, m, n), n)
  {
    Coords(b, n);
    var row, col := b / n, b % n;
    match m
    case R => NeighbourR(b, row, col, n);
    case L => NeighbourL(b, row, col, n);
    case U => NeighbourU(b, row, col, n);
    case D => NeighbourD(b, row, col, n);
  }

  lemma NeighbourR(b: int, row: int, col: int, n: int)
    requires n >= 1 && 0 <= row < n && 0 <= col < n && b == row * n + col
    requires b / n == row && b % n == col
    ensures R in ValidMoves(b, n) <==> 0 <= b - 1 < n * n && Adjacent(b, b - 1, n)
  {
    CellInRange(row, col, n);
    assert R in ValidMoves(b, n) <==> col != 0;
    if col != 0 {
      DivModOf(row, col - 1, n);
    } else if 0 <= b - 1 {
      DivModOf(row - 1, n - 1, n);
    }
  }

  lemma NeighbourL(b: int, row: int, col: int, n: int)
    requires n >= 1 && 0 <= row < n && 0 <= col < n && b == row * n + col
    requires b / n == row && b % n == col
    ensures L in ValidMoves(b, n) <==> 0 <= b + 1 < n * n && Adjacent(b, b + 1, n)
  {
    CellInRange(row, col, n);
    assert L in ValidMoves(b, n) <==> col != n - 1;
    if col != n - 1 {
      CellInRange(row, col + 1, n);
      DivModOf(row, col + 1, n);
    } else if b + 1 < n * n {
      DivModOf(row + 1, 0, n);
    }
  }

  lemma NeighbourU(b: int, row: int, col: int, n: int)
    requires n >= 1 && 0 <= row < n && 0 <= col < n && b == row * n + col
    requires b / n == row && b % n == col
    ensures U in ValidMoves(b, n) <==> 0 <= b + n < n * n && Adjacent(b, b + n, n)
  {
    assert U in ValidMoves(b, n) <==> row != n - 1;
    assert b + n == (row + 1) * n + col;
    DivModOf(row + 1, col, n);
    if row != n - 1 {
      CellInRange(row + 1, col, n);
    } else {
      assert b + n == n * n + col;
    }
  }

  lemma NeighbourD(b: int, row: int, col: int, n: int)
    requires n >= 1 && 0 <= row < n && 0 <= col < n && b == row * n + col
    requires b / n == row && b % n == col
    ensures D in ValidMoves(b, n) <==> 0 <= b - n < n * n && Adjacent(b, b - n, n)
  {
    assert D in ValidMoves(b, n) <==> row != 0;
    assert b - n == (row - 1) * n + col;
    DivModOf(row - 1, col, n);
    CellInRange(row, col, n);
    if row != 0 {
      CellInRange(row - 1, col, n);
    }
  }

  /** A swap keeps a board a permutation. */
  lemma SwapPermutation(s: seq<int>, i: int, j: int)
    requires IsPermutation(s) && 0 <= i < |s| && 0 <= j < |s|
    ensures IsPermutation(Swap(s, i, j))
  {
  }

  /** The opposite slide is legal from the new blank, returns the blank to
      where it was, and restores the board. */
  lemma SlideUndo(s: seq<int>, b: int, m: Move, n: int)
    requires n >= 1 && |s| == n * n && 0 <= b < n * n
    requires m in ValidMoves(b, n)
    ensures var t := Target(b, m, n);
            0 <= t < n * n &&
            Opposite(m) in ValidMoves(t, n) &&
            Target(t, Opposite(m), n) == b &&
            Swap(Swap(s, b, t), t, b) == s
  {
    var t := Target(b, m, n);
    ValidMovesAreNeighbours(b, n, m);
    ValidMovesAreNeighbours(t, n, Opposite(m));
    assert Target(t, Opposite(m), n) == b;
  }

  /** The blank's colour in a checkerboard colouring, as `solve` computes it
      for odd and for even sides. */
  function Colour(b: nat, n: nat): (r: nat)
    requires n >= 1
    ensures r <= 1
  {
    if n % 2 == 1 then b % 2 else (b % 2 + b / n) % 2
  }

  /** The colour is the parity of row plus column. */
  lemma ColourIsCheckerboard(b: nat, n: nat)
    requires n >= 1
    ensures Colour(b, n) == (b / n + b % n) % 2
  {
    ColourOfCell(b, b / n, b % n, n);
  }

  lemma ColourOfCell(b: nat, row: int, col: int, n: nat)
    requires n >= 1 && 0 <= col < n && b == row * n + col
    requires b / n == row && b % n == col
    ensures Colour(b, n) == (row + col) % 2
  {
    if n % 2 == 1 {
      OddSideParity(b, row, col, n);
    } else {
      EvenSideParity(b, row, col, n);
      assert col == 2 * (col / 2) + col % 2;
      ModTwoShift(col / 2, col % 2 + row);
    }
  }

  lemma OddSideParity(b: int, row: int, col: int, n: int)
    requires n % 2 == 1 && b == row * n + col
    ensures b % 2 == (row + col) % 2
  {
    var k := n / 2;
    assert n == 2 * k + 1;
    assert row * n == 2 * (row * k) + row;
    ModTwoShift(row * k, row + col);
  }

  lemma EvenSideParity(b: int, row: int, col: int, n: int)
    requires n % 2 == 0 && b == row * n + col
    ensures b % 2 == col % 2
  {
    var k := n / 2;
    assert n == 2 * k;
    assert row * n == 2 * (row * k);
    ModTwoShift(row * k, col);
  }

  /** Every legal slide moves the blank to the other colour. */
  lemma SlideFlipsColour(b: int, m: Move, n: int)
    requires n >= 1 && 0 <= b < n * n && m in ValidMoves(b, n)
    ensures 0 <= Target(b, m, n) < n * n
    ensures Colour(Target(b, m, n), n) == 1 - Colour(b, n)
  {
    Coords(b, n);
    var row, col := b / n, b % n;
    StepTo(b, m, row, col, n);
    var t := Target(b, m, n);
    Coords(t, n);
    var row', col' := t / n, t % n;
    ColourOfCell(b, row, col, n);
    ColourOfCell(t, row', col', n);
    NeighbourParity(row + col, row' + col');
  }

  lemma NeighbourParity(x: int, y: int)
    requires y == x + 1 || y == x - 1
    ensures y % 2 == 1 - x % 2
  {
  }

  /** The goal position of the blank has colour 0. */
  lemma GoalBlankColour(n: nat)
    requires n >= 1
    ensures Colour(n * n - 1, n) == 0
  {
    ColourIsCheckerboard(n * n - 1, n);
    DivModOf(n - 1, n - 1, n);
    assert n * n - 1 == (n - 1) * n + (n - 1);
  }

  /** Consecutive slides never undo each other (the test on the last move
      in `_exploreStates`). */
  predicate NoReversal(moves: seq<Move>)
  {
    forall i :: 0 < i < |moves| ==> moves[i] != Opposite(moves[i - 1])
  }

  /** Applying `moves` to a board with blank at `b`; `None` once a move is
      not legal. */
  function Replay(s: seq<int>, b: int, moves: seq<Move>, n: int): (r: Option<(seq<int>, int)>)
    requires n >= 1 && |s| == n * n && 0 <= b < n * n
    ensures r.Some? ==> |r.value.0| == n * n && 0 <= r.value.1 < n * n
    decreases |moves|
  {
    if moves == [] then Some((s, b))
    else
      match Replay(s, b, moves[..|moves| - 1], n)
      case None => None
      case Some((s', b')) =>
        var m := moves[|moves| - 1];
        if m in ValidMoves(b', n) then
          ValidMovesAreNeighbours(b', n, m);
          var t := Target(b', m, n);
          Some((Swap(s', b', t), t))
        else None
  }

  /** The last slide of a successful replay was legal from the blank the
      rest of the replay left. */
  lemma ReplayLast(s: seq<int>, b: int, moves: seq<Move>, n: int)
    requires n >= 1 && |s| == n * n && 0 <= b < n * n
    requires moves != [] && Replay(s, b, moves, n).Some?
    ensures var prev := Replay(s, b, moves[..|moves| - 1], n);
            var m := moves[|moves| - 1];
            prev.Some? && m in ValidMoves(prev.value.1, n) &&
            0 <= Target(prev.value.1, m, n) < n * n &&
            Replay(s, b, moves, n).value ==
              (Swap(prev.value.0, prev.value.1, Target(prev.value.1, m, n)), Target(prev.value.1, m, n))
  {
    var prev := Replay(s, b, moves[..|moves| - 1], n);
    ValidMovesAreNeighbours(prev.value.1, n, moves[|moves| - 1]);
  }

  lemma ParityFlip(x: int, c: int, y: int, z: int)
    requires (x == 0 && c == 1) || (x == 1 && c == 0)
    requires z == y + 1
    ensures (c + z) % 2 == (x + y) % 2
  {
    if x == 0 {
      ModTwoShift(1, y);
    }
  }

  /** Replaying a sequence of slides shifts the blank's colour by the
      sequence's length: a solution's length has the parity of the start
      colour, so depth thresholds of one parity suffice. */
  lemma {:induction false} ReplayColour(s: seq<int>, b: int, moves: seq<Move>, n: int)
    requires n >= 1 && |s| == n * n && 0 <= b < n * n
    requires Replay(s, b, moves, n).Some?
    ensures (Colour(Replay(s, b, moves, n).value.1, n) + |moves|) % 2 == Colour(b, n)
    decreases |moves|
  {
    if moves != [] {
      var prefix := moves[..|moves| - 1];
      ReplayLast(s, b, moves, n);
      ReplayColour(s, b, prefix, n);
      var b' := Replay(s, b, prefix, n).value.1;
      var t := Replay(s, b, moves, n).value.1;
      assert t == Target(b', moves[|moves| - 1], n);
      SlideFlipsColour(b', moves[|moves| - 1], n);
      var x, c := Colour(b', n), Colour(t, n);
      assert c == 1 - x;
      ParityFlip(x, c, |prefix|, |moves|);
    }
  }

  /** Replaying keeps the board a permutation with the blank where
      the replay says. */
  lemma {:induction false} ReplayKeepsBoard(s: seq<int>, b: int, moves: seq<Move>, n: int)
    requires n >= 1 && |s| == n * n && 0 <= b < n * n
    requires IsPermutation(s) && s[b] == 0
    requires Replay(s, b, moves, n).Some?
    ensures IsPermutation(Replay(s, b, moves, n).value.0)
    ensures Replay(s, b, moves, n).value.0[Replay(s, b, moves, n).value.1] == 0
    decreases |moves|
  {
    if moves != [] {
      ReplayKeepsBoard(s, b, moves[..|moves| - 1], n);
    }
  }

  /** One more legal slide extends a replay. */
  lemma ReplayStep(s: seq<int>, b: int, moves: seq<Move>, n: int, m: Move)
    requires n >= 1 && |s| == n * n && 0 <= b < n * n
    requires Replay(s, b, moves, n).Some?
    requires m in ValidMoves(Replay(s, b, moves, n).value.1, n)
    ensures var (s', b') := Replay(s, b, moves, n).value;
            0 <= Target(b', m, n) < n * n &&
            Replay(s, b, moves + [m], n) == Some((Swap(s', b', Target(b', m, n)), Target(b', m, n)))
  {
    assert (moves + [m])[..|moves|] == moves;
    ValidMovesAreNeighbours(Replay(s, b, moves, n).value.1, n, m);
  }

  /** On a permutation board, every cell holding its own number or the blank
      means the board is the goal. */
  lemma InPlaceIsGoal(s: seq<int>, n: nat)
    requires n >= 1 && |s| == n * n && IsPermutation(s)
    ensures InPlace(s) <==> s == Goal(n)
  {
    var N := n * n;
    if InPlace(s) {
      // Cell N-1 cannot hold N, so it holds the blank; the blank is unique.
      assert s[N - 1] == 0;
      forall i | 0 <= i < N
        ensures s[i] == Goal(n)[i]
      {
        if i != N - 1 {
          assert s[i] != s[N - 1];
        }
      }
    }
  }

  /** Playing `moves` on board `s` with the blank at `b` ends on the goal
      board, blank in the last cell. */
  predicate Solves(s: seq<int>, b: int, moves: seq<Move>, n: int)
    requires n >= 1 && |s| == n * n && 0 <= b < n * n
  {
    Replay(s, b, moves, n) == Some((Goal(n), n * n - 1))
  }

  /** Every solution from a blank at `b` has the parity of `b`'s colour,
      which is why `solve` starts its threshold there and steps it by 2. */
  lemma SolutionParity(s: seq<int>, b: int, moves: seq<Move>, n: int)
    requires n >= 1 && |s| == n * n && 0 <= b < n * n
    requires Solves(s, b, moves, n)
    ensures |moves| % 2 == Colour(b, n)
  {
    var end := Replay(s, b, moves, n);
    assert end.Some? && end.value.1 == n * n - 1;
    ReplayColour(s, b, moves, n);
    GoalBlankColour(n);
    assert Colour(end.value.1, n) == 0;
  }
}
