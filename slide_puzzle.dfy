/** The `SlidePuzzle` class of slidePuzzle.js: a board held in an array
    the instance owns, validated on construction, moved by slides, scored
    by `findH` and solved by an iterative-deepening best-first search. */
module SlidePuzzles {
  import opened Wrappers
  import opened Arith
  import opened Seqs
  import opened IntSums
  import opened SlideBoard
  import opened SlideInversions
  import opened SlideHeuristic
  import opened SlideIncremental

  /** The four numbers `findH` returns: the heuristic, then the three parts
      it is the larger of (`acc`, and the two inversion distances). */
  datatype Scores = Scores(h: int, acc: int, vert: int, hor: int)

  function Max(a: int, b: int): (r: int)
    ensures r >= a && r >= b && (r == a || r == b)
  {
    if a >= b then a else b
  }

  /** A search state of `_exploreStates`. */
  datatype Node = Node(state: seq<int>, g: nat, h: int, md: int, invVert: int, invHor: int,
                       moves: seq<Move>, blankIndex: int, f: int)

  /** No slide in `moves` is along a row. */
  predicate AllVertical(moves: seq<Move>)
  {
    forall i :: 0 <= i < |moves| ==> IsVertical(moves[i])
  }

  /** What every state the search creates satisfies: it is reached from the
      root by its moves, never undoes a move, and carries the scores of
      its board. The row-major distance is always exact; the column-major
      one is exact once a slide along a row has recomputed it, and before
      that it is the root's. */
  ghost predicate NodeOk(nd: Node, n: int, root: seq<int>, rootBlank: int, rootHor: int)
  {
    n >= 2 && |root| == n * n && 0 <= rootBlank < n * n &&
    |nd.state| == n * n && IsPermutation(nd.state) &&
    0 <= nd.blankIndex < n * n && nd.state[nd.blankIndex] == 0 &&
    nd.g == |nd.moves| && NoReversal(nd.moves) &&
    Replay(root, rootBlank, nd.moves, n) == Some((nd.state, nd.blankIndex)) &&
    nd.md == ManhattanLinear(nd.state, n) &&
    nd.invVert == Takahashi(Inversions(nd.state), n) &&
    nd.invHor == (if AllVertical(nd.moves) then rootHor else Takahashi(HorInversions(nd.state, n), n)) &&
    nd.h == Max(nd.md, nd.invVert + nd.invHor) &&
    nd.f == nd.g + nd.h
  }

  predicate OnFrontier(nd: Node, fs: seq<Node>)
  {
    nd in fs
  }

  /** Every state on the search's frontier satisfies the invariant and is
      at most one move past the depth bound. */
  ghost predicate FrontierOk(fs: seq<Node>, d: nat, n: int, root: seq<int>, rootBlank: int, rootHor: int)
  {
    forall nd {:trigger OnFrontier(nd, fs)} :: OnFrontier(nd, fs) ==>
      NodeOk(nd, n, root, rootBlank, rootHor) && nd.g <= d + 1
  }

  lemma FrontierPush(fs: seq<Node>, c: Node, d: nat, n: int, root: seq<int>, rootBlank: int, rootHor: int)
    requires FrontierOk(fs, d, n, root, rootBlank, rootHor)
    requires NodeOk(c, n, root, rootBlank, rootHor) && c.g <= d + 1
    ensures FrontierOk(fs + [c], d, n, root, rootBlank, rootHor)
  {
    forall nd | OnFrontier(nd, fs + [c])
      ensures NodeOk(nd, n, root, rootBlank, rootHor) && nd.g <= d + 1
    {
      if nd != c {
        assert OnFrontier(nd, fs);
      }
    }
  }

  lemma FrontierRemove(fs: seq<Node>, k: int, d: nat, n: int, root: seq<int>, rootBlank: int, rootHor: int)
    requires 0 <= k < |fs| && FrontierOk(fs, d, n, root, rootBlank, rootHor)
    ensures NodeOk(fs[k], n, root, rootBlank, rootHor) && fs[k].g <= d + 1
    ensures FrontierOk(fs[..k] + fs[k + 1..], d, n, root, rootBlank, rootHor)
  {
    assert OnFrontier(fs[k], fs);
    assert fs == fs[..k] + [fs[k]] + fs[k + 1..];
    forall nd | OnFrontier(nd, fs[..k] + fs[k + 1..])
      ensures NodeOk(nd, n, root, rootBlank, rootHor) && nd.g <= d + 1
    {
      assert OnFrontier(nd, fs);
    }
  }

  /** The order of the search's heap: larger `g` first, then smaller `f`. */
  predicate Before(x: Node, y: Node)
  {
    x.g > y.g || (x.g == y.g && x.f < y.f)
  }

  /** The board `[6, 13, 7, …]` the source keeps as a valid example. */
  function ValidBoard(): seq<int>
  {
    [6, 13, 7, 10, 8, 9, 11, 0, 15, 2, 12, 5, 14, 3, 1, 4]
  }

  /** The board `[3, 9, 1, …]` the source keeps as an invalid example. */
  function InvalidBoard(): seq<int>
  {
    [3, 9, 1, 15, 14, 11, 4, 6, 13, 0, 10, 12, 2, 7, 8, 5]
  }

  lemma ValidBoardInversions()
    ensures Inversions(ValidBoard()) == 62
  {
    var s := [6, 13, 7, 10, 8, 9, 11, 0, 15, 2, 12, 5, 14, 3, 1, 4];
    assert InversionsAt(s, 1) == 0;
    assert InversionsAt(s, 2) == 0;
    assert InversionsAt(s, 3) == 1;
    assert InversionsAt(s, 4) == 2;
    assert InversionsAt(s, 5) == 4;
    assert InversionsAt(s, 6) == 6;
    assert InversionsAt(s, 7) == 7;
    assert InversionsAt(s, 8) == 7;
    assert AboveAmong(s, 4, 15) == 0;
    assert InversionsAt(s, 9) == 7;
    assert AboveAmong(s, 4, 2) == 4;
    assert InversionsAt(s, 10) == 15;
    assert AboveAmong(s, 5, 12) == 1;
    assert InversionsAt(s, 11) == 17;
    assert AboveAmong(s, 5, 5) == 5;
    assert InversionsAt(s, 12) == 26;
    assert AboveAmong(s, 6, 14) == 0;
    assert InversionsAt(s, 13) == 27;
    assert AboveAmong(s, 6, 3) == 6;
    assert InversionsAt(s, 14) == 38;
    assert AboveAmong(s, 7, 1) == 7;
    assert InversionsAt(s, 15) == 51;
    assert AboveAmong(s, 7, 4) == 7;
    assert InversionsAt(s, 16) == 62;
    InversionsAtAgrees(s, 16);
    assert s[..16] == s;
  }

  /** 62 inversions with the blank in the third row from the bottom:
      the rule accepts the valid example. */
  lemma ValidBoardAccepted()
    ensures FirstZero(ValidBoard()) == Some(7)
    ensures Solvable(ValidBoard(), 4)
  {
    ValidBoardInversions();
    var s := ValidBoard();
    assert s[0] != 0;
    assert FirstZero(s) == Some(7);
  }

  lemma InvalidBoardInversions()
    ensures Inversions(InvalidBoard()) == 56
  {
    var s := [3, 9, 1, 15, 14, 11, 4, 6, 13, 0, 10, 12, 2, 7, 8, 5];
    assert InversionsAt(s, 1) == 0;
    assert InversionsAt(s, 2) == 0;
    assert InversionsAt(s, 3) == 2;
    assert InversionsAt(s, 4) == 2;
    assert InversionsAt(s, 5) == 3;
    assert InversionsAt(s, 6) == 5;
    assert InversionsAt(s, 7) == 9;
    assert InversionsAt(s, 8) == 13;
    assert AboveAmong(s, 4, 13) == 1;
    assert InversionsAt(s, 9) == 15;
    assert InversionsAt(s, 10) == 15;
    assert AboveAmong(s, 5, 10) == 2;
    assert InversionsAt(s, 11) == 19;
    assert AboveAmong(s, 5, 12) == 2;
    assert InversionsAt(s, 12) == 22;
    assert AboveAmong(s, 6, 2) == 5;
    assert InversionsAt(s, 13) == 32;
    assert AboveAmong(s, 6, 7) == 4;
    assert InversionsAt(s, 14) == 39;
    assert AboveAmong(s, 7, 8) == 4;
    assert InversionsAt(s, 15) == 46;
    assert AboveAmong(s, 7, 5) == 4;
    assert InversionsAt(s, 16) == 56;
    InversionsAtAgrees(s, 16);
    assert s[..16] == s;
  }

  /** 56 inversions with the blank in the second row from the bottom:
      the rule rejects the invalid example. */
  lemma InvalidBoardRejected()
    ensures FirstZero(InvalidBoard()) == Some(9)
    ensures !Solvable(InvalidBoard(), 4)
  {
    InvalidBoardInversions();
    var s := InvalidBoard();
    assert s[0] != 0;
    assert FirstZero(s) == Some(9);
  }

  /** The goal board is a permutation with its blank in the last cell. */
  lemma GoalPermutation(n: nat)
    requires n >= 1
    ensures IsPermutation(Goal(n)) && Goal(n)[n * n - 1] == 0
    ensures forall i :: 0 <= i < n * n && Goal(n)[i] == 0 ==> i == n * n - 1
  {
  }

  /** A count of the entries above `x`, as the `reduce` over `appeared`. */
  method CountAbove(vals: seq<int>, x: int) returns (r: nat)
    ensures r == CountGreater(vals, x)
  {
    r := 0;
    var k := 0;
    while k < |vals|
      invariant 0 <= k <= |vals|
      invariant r == CountGreater(vals[..k], x)
    {
      assert vals[..k + 1][..k] == vals[..k];
      if vals[k] > x {
        r := r + 1;
      }
      k := k + 1;
    }
    assert vals[..|vals|] == vals;
  }

  lemma RelabelLookup(v: int, n: int, ideal: seq<int>)
    requires n >= 1 && ideal == IdealHor(n)
    ensures (if 1 <= v <= |ideal| then ideal[v - 1] else 0) == Relabel(v, n)
  {
  }

  /** One entry of the scan of `_inversionCount`: the running list of
      tiles and the running count extend to the next prefix. */
  lemma ScanStep(view: seq<int>, i: int, appeared: seq<int>, inv: int, j: int)
    requires 0 <= i < |view| && view[i] == j
    requires appeared == NonZero(view[..i]) && inv == Inversions(view[..i])
    ensures j != 0 ==> appeared + [j] == NonZero(view[..i + 1]) &&
                       inv + CountGreater(appeared, j) == Inversions(view[..i + 1])
    ensures j == 0 ==> appeared == NonZero(view[..i + 1]) && inv == Inversions(view[..i + 1])
  {
    PrefixStep(view, i);
  }

  /** `_inversionCount`: row-major, or column-major with every tile
      relabelled through `ideal` (the instance's `_idealHor`), where a
      missing entry (the blank's) is skipped like any falsy value. */
  method InversionCount(input: seq<int>, horizontal: bool, n: int, ideal: seq<int>) returns (inv: nat)
    requires horizontal ==> n >= 1 && |input| == n * n && ideal == IdealHor(n)
    ensures horizontal ==> inv == HorInversions(input, n)
    ensures !horizontal ==> inv == Inversions(input)
  {
    ghost var view := if horizontal then HorView(input, n) else input;
    var appeared: seq<int> := [];
    inv := 0;
    var i := 0;
    while i < |input|
      invariant 0 <= i <= |input| == |view|
      invariant appeared == NonZero(view[..i])
      invariant inv == Inversions(view[..i])
    {
      var j;
      if horizontal {
        HorViewAt(input, n, i);
        var v := input[Transpose(i, n)];
        j := if 1 <= v <= |ideal| then ideal[v - 1] else 0;
        RelabelLookup(v, n, ideal);
      } else {
        j := input[i];
      }
      ScanStep(view, i, appeared, inv, j);
      if j != 0 {
        var r := CountAbove(appeared, j);
        inv := inv + r;
        appeared := appeared + [j];
      }
      i := i + 1;
    }
    assert view[..|input|] == view;
  }

  /** The index of the first blank (the `for … in` loops of the
      constructor and of `_validatePuzzle`). */
  method FindBlank(input: seq<int>) returns (r: Option<nat>)
    ensures r == FirstZero(input)
  {
    var i := 0;
    while i < |input|
      invariant 0 <= i <= |input|
      invariant forall j :: 0 <= j < i ==> input[j] != 0
    {
      if input[i] == 0 {
        return Some(i);
      }
      i := i + 1;
    }
    return None;
  }

  /** `_validatePuzzle`: "Invalid size" unless the length is a square,
      otherwise whether the board passes the solvability rule. */
  method ValidatePuzzle(input: seq<int>) returns (r: Result<bool>)
    ensures Sqrt(|input|).Err? ==> r == Err("Invalid size")
    ensures Sqrt(|input|).Ok? ==> r == Ok(Solvable(input, Sqrt(|input|).value))
  {
    var sq := Sqrt(|input|);
    if sq.Err? {
      return Err(sq.msg);
    }
    var n := sq.value;
    var oddSize := n % 2 == 1;
    var inversions := InversionCount(input, false, n, []);
    var inversionCountIsOdd := inversions % 2 == 1;
    if oddSize {
      return Ok(!inversionCountIsOdd);
    }
    var blankSpot := FindBlank(input);
    // With no blank the source's row is NaN, which is not odd.
    var rowIsOdd := match blankSpot
      case None => false
      case Some(b) => n >= 1 && (n - b / n) % 2 == 1;
    return Ok(Xor(rowIsOdd, inversionCountIsOdd));
  }

  /** Powers of five, to weigh search states by how many descendants the
      depth bound still allows them. */
  function Pow5(e: nat): (r: nat)
    ensures r >= 1
  {
    if e == 0 then 1 else 5 * Pow5(e - 1)
  }

  /** A state `g` moves deep under bound `d` weighs 5^(d + 1 - g): more than
      the four children it may still have, each one level deeper. */
  function NodeWeight(nd: Node, d: nat): nat
  {
    Pow5(if nd.g <= d + 1 then d + 1 - nd.g else 0)
  }

  function Weight(fs: seq<Node>, d: nat): nat
  {
    if fs == [] then 0 else Weight(fs[..|fs| - 1], d) + NodeWeight(fs[|fs| - 1], d)
  }

  /** A state within the bound weighs five times what a child of it does. */
  lemma NodeWeightStep(nd: Node, child: Node, d: nat)
    requires nd.g <= d && child.g == nd.g + 1
    ensures NodeWeight(nd, d) == 5 * Pow5(d - nd.g)
    ensures NodeWeight(child, d) == Pow5(d - nd.g)
  {
    assert d + 1 - nd.g == (d - nd.g) + 1;
  }

  /** The weight of a frontier is the sum of its parts'. */
  lemma {:induction false} WeightConcat(a: seq<Node>, b: seq<Node>, d: nat)
    ensures Weight(a + b, d) == Weight(a, d) + Weight(b, d)
    decreases |b|
  {
    if b == [] {
      assert a + b == a;
    } else {
      WeightConcat(a, b[..|b| - 1], d);
      assert (a + b)[..|a + b| - 1] == a + b[..|b| - 1];
    }
  }

  /** Taking state `k` out of a frontier takes its weight off. */
  lemma WeightRemove(fs: seq<Node>, k: int, d: nat)
    requires 0 <= k < |fs|
    ensures Weight(fs, d) == Weight(fs[..k] + fs[k + 1..], d) + NodeWeight(fs[k], d)
  {
    assert fs == fs[..k] + [fs[k]] + fs[k + 1..];
    WeightConcat(fs[..k] + [fs[k]], fs[k + 1..], d);
    WeightConcat(fs[..k], [fs[k]], d);
    WeightConcat(fs[..k], fs[k + 1..], d);
  }

  /** The state the heap pops: no other state comes before it. */
  method BestIndex(frontier: seq<Node>) returns (k: int)
    requires |frontier| > 0
    ensures 0 <= k < |frontier|
    ensures forall j :: 0 <= j < |frontier| ==> !Before(frontier[j], frontier[k])
  {
    k := 0;
    var i := 1;
    while i < |frontier|
      invariant 0 <= k < i <= |frontier|
      invariant forall j :: 0 <= j < i ==> !Before(frontier[j], frontier[k])
    {
      if Before(frontier[i], frontier[k]) {
        k := i;
      }
      i := i + 1;
    }
  }

  /** A non-negative heuristic: `acc` is a sum of non-negative tile scores. */
  lemma NodeCostBounds(nd: Node, n: int, root: seq<int>, rootBlank: int, rootHor: int)
    requires NodeOk(nd, n, root, rootBlank, rootHor)
    ensures nd.h >= nd.md >= 0 && nd.f >= nd.g
  {
    SumNonNegative(0, |nd.state|, TileScores(nd.state, n));
  }

  /** A state of heuristic 0 is the goal board, reached from the root. */
  lemma FoundIsGoal(nd: Node, n: int, root: seq<int>, rootBlank: int, rootHor: int)
    requires NodeOk(nd, n, root, rootBlank, rootHor) && nd.h == 0
    ensures nd.state == Goal(n) && nd.blankIndex == n * n - 1
    ensures Solves(root, rootBlank, nd.moves, n)
    ensures |nd.moves| % 2 == Colour(rootBlank, n)
  {
    NodeCostBounds(nd, n, root, rootBlank, rootHor);
    ZeroScoreIsGoal(nd.state, n);
    GoalPermutation(n);
    SolutionParity(root, rootBlank, nd.moves, n);
  }

  /** The scores of a state after a legal slide that does not undo the
      last one, as `findH` leaves them, satisfy the invariant again. */
  lemma ChildOk(cur: Node, m: Move, n: int, root: seq<int>, rootBlank: int, rootHor: int, c: Node)
    requires NodeOk(cur, n, root, rootBlank, rootHor)
    requires m in ValidMoves(cur.blankIndex, n)
    requires |cur.moves| == 0 || cur.moves[|cur.moves| - 1] != Opposite(m)
    requires 0 <= Target(cur.blankIndex, m, n) < n * n
    requires c.state == Swap(cur.state, cur.blankIndex, Target(cur.blankIndex, m, n))
    requires c.blankIndex == Target(cur.blankIndex, m, n)
    requires c.g == cur.g + 1 && c.moves == cur.moves + [m]
    requires cur.md == 0 ==> c.md == ManhattanLinear(c.state, n)
    requires cur.md != 0 ==> c.md == IncrementalAcc(c.state, n, c.blankIndex, cur.blankIndex, cur.md)
    requires Abs(c.blankIndex - cur.blankIndex) != 1 ==>
               c.invVert == Takahashi(Inversions(c.state), n) && c.invHor == cur.invHor
    requires Abs(c.blankIndex - cur.blankIndex) == 1 ==>
               c.invVert == cur.invVert && c.invHor == Takahashi(HorInversions(c.state, n), n)
    requires c.h == Max(c.md, c.invVert + c.invHor) && c.f == c.g + c.h
    ensures NodeOk(c, n, root, rootBlank, rootHor)
  {
    ChildBoard(cur, m, n, root, rootBlank, rootHor);
    ChildPath(cur, m, c.moves);
    ChildScores(cur, m, n, root, rootBlank, rootHor, c);
  }

  /** The child's scores are those of its board, whichever branch of
      `findH` computed them. */
  lemma ChildScores(cur: Node, m: Move, n: int, root: seq<int>, rootBlank: int, rootHor: int, c: Node)
    requires NodeOk(cur, n, root, rootBlank, rootHor)
    requires m in ValidMoves(cur.blankIndex, n)
    requires |cur.moves| == 0 || cur.moves[|cur.moves| - 1] != Opposite(m)
    requires 0 <= Target(cur.blankIndex, m, n) < n * n
    requires c.state == Swap(cur.state, cur.blankIndex, Target(cur.blankIndex, m, n))
    requires c.blankIndex == Target(cur.blankIndex, m, n)
    requires c.g == cur.g + 1 && c.moves == cur.moves + [m]
    requires cur.md == 0 ==> c.md == ManhattanLinear(c.state, n)
    requires cur.md != 0 ==> c.md == IncrementalAcc(c.state, n, c.blankIndex, cur.blankIndex, cur.md)
    requires Abs(c.blankIndex - cur.blankIndex) != 1 ==>
               c.invVert == Takahashi(Inversions(c.state), n) && c.invHor == cur.invHor
    requires Abs(c.blankIndex - cur.blankIndex) == 1 ==>
               c.invVert == cur.invVert && c.invHor == Takahashi(HorInversions(c.state, n), n)
    requires c.h == Max(c.md, c.invVert + c.invHor) && c.f == c.g + c.h
    ensures c.md == ManhattanLinear(c.state, n)
    ensures c.invVert == Takahashi(Inversions(c.state), n)
    ensures c.invHor == (if AllVertical(c.moves) then rootHor else Takahashi(HorInversions(c.state, n), n))
  {
    ChildPath(cur, m, c.moves);
    var P, p := cur.state, cur.blankIndex;
    SlideGeometry(P, p, m, n);
    IncrementalIsExact(P, n, p, m);
    if IsVertical(m) {
      ColumnSlideKeepsHorInversions(P, n, p, m);
    } else {
      RowSlideKeepsInversions(P, n, p, m);
    }
  }

  /** The slid board is a permutation with the blank where the tile was,
      and the replay of the extended moves reaches it. */
  lemma ChildBoard(cur: Node, m: Move, n: int, root: seq<int>, rootBlank: int, rootHor: int)
    requires NodeOk(cur, n, root, rootBlank, rootHor)
    requires m in ValidMoves(cur.blankIndex, n)
    ensures 0 <= Target(cur.blankIndex, m, n) < n * n
    ensures var t := Target(cur.blankIndex, m, n);
            var C := Swap(cur.state, cur.blankIndex, t);
            IsPermutation(C) && C[t] == 0 &&
            Replay(root, rootBlank, cur.moves + [m], n) == Some((C, t))
  {
    var P, p := cur.state, cur.blankIndex;
    ValidMovesAreNeighbours(p, n, m);
    SwapPermutation(P, p, Target(p, m, n));
    ReplayStep(root, rootBlank, cur.moves, n, m);
  }

  /** Extending the moves by a slide that does not undo the last keeps
      them free of reversals; it keeps them all vertical exactly when the
      slide is vertical. */
  lemma ChildPath(cur: Node, m: Move, moves: seq<Move>)
    requires NoReversal(cur.moves)
    requires |cur.moves| == 0 || cur.moves[|cur.moves| - 1] != Opposite(m)
    requires moves == cur.moves + [m]
    ensures NoReversal(moves)
    ensures AllVertical(moves) <==> AllVertical(cur.moves) && IsVertical(m)
  {
    assert forall i :: 0 <= i < |cur.moves| ==> moves[i] == cur.moves[i];
    assert moves[|cur.moves|] == m;
    if |cur.moves| > 0 {
      var last := cur.moves[|cur.moves| - 1];
      assert Opposite(Opposite(m)) == m;
    }
  }

  /** The instance: the board array, the blank's index, the side, the legal
      slides from the blank, the column-major relabelling, and the scores
      `solve` records for the root of its search. */
  class SlidePuzzle {
    var puzzle: array<int>
    var blankIndex: int
    var size: nat
    var validMovesArr: seq<Move>
    var idealHor: array<int>
    var h: int
    var md: int
    var invVert: int
    var invHor: int
    var g: int
    var f: int

    /** The board is an n×n permutation with the blank at `blankIndex`, the
        legal slides are those of that blank, and `idealHor` is the
        relabelling table, in an array of its own. */
    ghost predicate Valid()
      reads this, puzzle, idealHor
    {
      size >= 1 && puzzle.Length == size * size && IsPermutation(puzzle[..]) &&
      0 <= blankIndex < puzzle.Length && puzzle[blankIndex] == 0 &&
      validMovesArr == ValidMoves(blankIndex, size) &&
      idealHor != puzzle && idealHor[..] == IdealHor(size)
    }

    /** The loop at the end of the constructor: entry `Transpose(i)` of the
        table receives `i + 1`. */
    static method MakeIdealHor(n: nat) returns (a: array<int>)
      requires n >= 1
      ensures fresh(a) && a[..] == IdealHor(n)
    {
      a := new int[n * n];
      var i := 0;
      while i < n * n
        invariant 0 <= i <= n * n && a.Length == n * n
        invariant forall j :: 0 <= j < i ==> 0 <= Transpose(j, n) < n * n && a[Transpose(j, n)] == j + 1
      {
        TransposeInvolution(i, n);
        forall j | 0 <= j < i
          ensures Transpose(j, n) != Transpose(i, n)
        {
          TransposeInvolution(j, n);
        }
        a[n * (i % n) + i / n] := i + 1;
        i := i + 1;
      }
      forall t | 0 <= t < n * n
        ensures a[t] == IdealHor(n)[t]
      {
        TransposeInvolution(t, n);
        assert a[Transpose(Transpose(t, n), n)] == Transpose(t, n) + 1;
      }
    }

    /** `new SlidePuzzle(n)`: the goal board of side `n`. */
    constructor OfSize(n: nat)
      requires n >= 1
      ensures Valid() && size == n && puzzle[..] == Goal(n) && blankIndex == n * n - 1
      ensures fresh(puzzle) && fresh(idealHor)
    {
      var k := n * n;
      var board := new int[k](i => i + 1);
      board[k - 1] := 0;
      assert board[..] == Goal(n);
      GoalPermutation(n);
      var table := MakeIdealHor(n);
      puzzle := board;
      blankIndex := k - 1;
      size := n;
      validMovesArr := ValidMoves(k - 1, n);
      idealHor := table;
    }

    /** The array branch of the constructor once the board is accepted: the
        instance keeps the caller's array itself. */
    constructor FromBoard(input: array<int>, n: nat)
      requires n >= 1 && input.Length == n * n && IsPermutation(input[..])
      ensures Valid() && puzzle == input && size == n && fresh(idealHor)
      ensures FirstZero(input[..]) == Some(blankIndex as nat)
    {
      PermutationHasEveryValue(input[..], 0);
      var b := FindBlank(input[..]);
      var table := MakeIdealHor(n);
      puzzle := input;
      blankIndex := b.value;
      size := n;
      validMovesArr := ValidMoves(b.value, n);
      idealHor := table;
    }

    /** `new SlidePuzzle(array, skipVerification)`: "invalid state" when
        verification is on and the board fails the solvability rule, and
        "Invalid size" when its length is not a square. */
    static method Create(input: array<int>, skipVerification: bool) returns (r: Result<SlidePuzzle>)
      requires IsPermutation(input[..])
      requires input.Length >= 1 || !skipVerification
      ensures Sqrt(input.Length).Err? ==> r == Err("Invalid size")
      ensures Sqrt(input.Length).Ok? && !skipVerification && !Solvable(input[..], Sqrt(input.Length).value) ==>
                r == Err("invalid state")
      ensures r.Ok? <==> Sqrt(input.Length).Ok? && (skipVerification || Solvable(input[..], Sqrt(input.Length).value))
      ensures r.Ok? ==> fresh(r.value) && r.value.Valid() && r.value.puzzle == input &&
                        r.value.size == Sqrt(input.Length).value
    {
      if !skipVerification {
        var validState := ValidatePuzzle(input[..]);
        if validState.Err? {
          return Err(validState.msg);
        }
        if !validState.value {
          return Err("invalid state");
        }
      }
      var sq := Sqrt(input.Length);
      if sq.Err? {
        return Err(sq.msg);
      }
      if sq.value == 0 {
        // An empty board is never solvable, so verification was skipped,
        // which the precondition rules out.
        assert false;
        return Err("invalid state");
      }
      var p := new SlidePuzzle.FromBoard(input, sq.value);
      return Ok(p);
    }

    /** The slide `m` on a board the caller supplies: if `m` is among
        `moves` the tile is swapped into the blank and the new blank index
        is returned; otherwise the slide's message is thrown and the board
        is left alone. */
    method SlideArray(m: Move, input: array<int>, blank: int, moves: seq<Move>) returns (r: Result<int>)
      requires m in moves ==> 0 <= blank < input.Length && 0 <= Target(blank, m, size) < input.Length
      modifies input
      ensures m in moves ==> r == Ok(Target(blank, m, size)) &&
                             input[..] == Swap(old(input[..]), blank, Target(blank, m, size))
      ensures m !in moves ==> r == Err(InvalidMove(m)) && input[..] == old(input[..])
    {
      if m in moves {
        var t := Target(blank, m, size);
        input[blank], input[t] := input[t], input[blank];
        return Ok(t);
      }
      return Err(InvalidMove(m));
    }

    /** `validMoves()` with no argument: record the legal slides of the
        current blank. */
    method UpdateValidMoves()
      requires size >= 1 && 0 <= blankIndex
      modifies this
      ensures puzzle == old(puzzle) && blankIndex == old(blankIndex) && size == old(size) &&
              idealHor == old(idealHor)
      ensures validMovesArr == ValidMoves(blankIndex, size)
      ensures h == old(h) && md == old(md) && invVert == old(invVert) && invHor == old(invHor) &&
              g == old(g) && f == old(f)
    {
      validMovesArr := ValidMoves(blankIndex, size);
    }

    /** A slide on the instance's own board (`slideRight()` and the rest
        with no board given): legal slides move the tile, the blank and
        the list of legal slides; others throw. */
    method Slide(m: Move) returns (r: Outcome)
      requires Valid()
      modifies this, puzzle
      ensures Valid()
      ensures puzzle == old(puzzle) && size == old(size) && idealHor == old(idealHor)
      ensures h == old(h) && md == old(md) && invVert == old(invVert) && invHor == old(invHor) &&
              g == old(g) && f == old(f)
      ensures m in old(validMovesArr) ==>
                r == Pass && blankIndex == Target(old(blankIndex), m, size) &&
                puzzle[..] == Swap(old(puzzle[..]), old(blankIndex), blankIndex)
      ensures m !in old(validMovesArr) ==>
                r == Fail(InvalidMove(m)) && blankIndex == old(blankIndex) && puzzle[..] == old(puzzle[..])
    {
      if m in validMovesArr {
        ValidMovesAreNeighbours(blankIndex, size, m);
        SwapPermutation(puzzle[..], blankIndex, Target(blankIndex, m, size));
      }
      var res := SlideArray(m, puzzle, blankIndex, validMovesArr);
      match res
      case Ok(t) =>
        blankIndex := t;
        UpdateValidMoves();
        r := Pass;
      case Err(msg) =>
        r := Fail(msg);
    }

    /** `isSolved`: every cell holds its own number or the blank. */
    static method IsSolved(input: seq<int>) returns (r: bool)
      ensures r <==> InPlace(input)
    {
      r := true;
      var i := 0;
      while i < |input|
        invariant 0 <= i <= |input|
        invariant r <==> forall j :: 0 <= j < i ==> input[j] == j + 1 || input[j] == 0
      {
        r := r && (input[i] == i + 1 || input[i] == 0);
        i := i + 1;
      }
    }

    /** One line scan of `findH`: add `w` for every tile of `line` that
        belongs in it and is out of order with tile `v` at `pos`. */
    static method ScanLine(input: seq<int>, n: int, a: Axis, line: int, pos: int, v: int, w: int, acc0: int)
      returns (acc: int)
      requires n >= 1 && |input| == n * n && 0 <= line < n
      ensures acc == acc0 + w * LineConflicts(input, n, a, line, pos, v)
    {
      ghost var P := Conflicts(input, n, a, line, pos, v);
      acc := acc0;
      var test := 0;
      ghost var hits := 0;
      while test < n
        invariant 0 <= test <= n
        invariant hits == Count(0, test, P)
        invariant acc == acc0 + w * hits
      {
        var k := if a == Rows then line * n + test else test * n + line;
        if a == Rows { CellInRange(line, test, n); } else { CellInRange(test, line, n); }
        var hit := false;
        if GoalLine(input[k], a, n) == line {
          if test < pos {
            hit := input[k] > v;
          } else {
            hit := input[k] < v && input[k] != 0;
          }
        }
        assert hit == P(test);
        if hit {
          acc := acc + w;
          hits := hits + 1;
          assert w * hits == w * (hits - 1) + w;
        }
        test := test + 1;
      }
    }

    /** The `if (!acc)` branch of `findH`: for every tile, its distance
        from its goal row and goal column, and 2 per conflict in a line it
        already sits in. */
    static method ScratchAcc(input: seq<int>, n: int) returns (acc: int)
      requires n >= 1 && |input| == n * n
      ensures acc == ManhattanLinear(input, n)
    {
      acc := 0;
      var i := 0;
      while i < |input|
        invariant 0 <= i <= |input|
        invariant acc == Sum(0, i, TileScores(input, n))
      {
        var curr := input[i];
        ghost var before := acc;
        if curr != 0 {
          Coords(i, n);
          var rowDist := Abs(GoalRow(curr, n) - i / n);
          var colDist := Abs(GoalCol(curr, n) - i % n);
          acc := acc + rowDist + colDist;
          if rowDist == 0 {
            acc := ScanLine(input, n, Rows, i / n, i % n, curr, 2, acc);
          }
          if colDist == 0 {
            acc := ScanLine(input, n, Cols, i % n, i / n, curr, 2, acc);
          }
          assert acc - before == AxisScore(input, n, i, Rows) + AxisScore(input, n, i, Cols);
        }
        assert acc - before == TileScores(input, n)(i);
        i := i + 1;
      }
    }

    /** The other branch of `findH`: the previous `acc` updated for the tile
        that slid from cell `blank` into cell `last`. */
    static method IncrementalUpdate(input: seq<int>, n: int, blank: int, last: int, acc0: int) returns (acc: int)
      requires n >= 1 && |input| == n * n && 0 <= last < |input| && 0 <= blank < |input|
      ensures acc == IncrementalAcc(input, n, blank, last, acc0)
    {
      var a := if Abs(blank - last) != 1 then Rows else Cols;
      var moved := input[last];
      Coords(last, n);
      Coords(blank, n);
      var line, lastLine, pos := Line(last, a, n), Line(blank, a, n), Pos(last, a, n);
      var dist := Abs(GoalLine(moved, a, n) - line);
      var prevDist := Abs(GoalLine(moved, a, n) - lastLine);
      acc := acc0;
      if dist > prevDist {
        acc := acc + 1;
      } else {
        acc := acc - 1;
      }
      if dist == 0 {
        acc := ScanLine(input, n, a, line, pos, moved, 4, acc);
      } else if prevDist == 0 {
        acc := ScanLine(input, n, a, lastLine, pos, moved, -4, acc);
      }
    }

    /** `findH(input, blankIndex, lastIndex, acc, vert, hor)`: with no
        previous `acc`, the Manhattan distance plus linear conflicts from
        scratch; otherwise the previous `acc` updated for the slide from
        `blankIndex` to `lastIndex`. The row-major inversion distance is
        recomputed after a vertical slide and the column-major one after
        a horizontal slide; the other is kept. */
    method FindH(input: seq<int>, blank: int, last: int, acc0: int, vert0: int, hor0: int) returns (r: Scores)
      requires Valid() && size >= 2 && |input| == size * size
      requires acc0 != 0 ==> 0 <= last < |input| && 0 <= blank < |input|
      ensures acc0 == 0 ==> r.acc == ManhattanLinear(input, size)
      ensures acc0 != 0 ==> r.acc == IncrementalAcc(input, size, blank, last, acc0)
      ensures Abs(blank - last) != 1 ==> r.vert == Takahashi(Inversions(input), size) && r.hor == hor0
      ensures Abs(blank - last) == 1 ==> r.vert == vert0 && r.hor == Takahashi(HorInversions(input, size), size)
      ensures r.h == Max(r.acc, r.vert + r.hor)
    {
      var n := size;
      var isVert := Abs(blank - last) != 1;
      var acc;
      if acc0 == 0 {
        acc := ScratchAcc(input, n);
      } else {
        acc := IncrementalUpdate(input, n, blank, last, acc0);
      }
      var vert, hor := vert0, hor0;
      if isVert {
        var inversions := InversionCount(input, false, n, idealHor[..]);
        vert := Takahashi(inversions, n);
      }
      if !isVert {
        var horInversions := InversionCount(input, true, n, idealHor[..]);
        hor := Takahashi(horInversions, n);
      }
      r := Scores(Max(acc, vert + hor), acc, vert, hor);
    }

    /** One child of `_exploreStates`: slide a copy of the state's board,
        score it with `findH` from the parent's scores, and extend the
        moves. */
    method Child(cur: Node, m: Move, ghost root: seq<int>, ghost rootBlank: int, ghost rootHor: int)
      returns (c: Node)
      requires Valid() && NodeOk(cur, size, root, rootBlank, rootHor)
      requires m in ValidMoves(cur.blankIndex, size)
      requires |cur.moves| == 0 || cur.moves[|cur.moves| - 1] != Opposite(m)
      ensures NodeOk(c, size, root, rootBlank, rootHor)
      ensures c.moves == cur.moves + [m] && c.g == cur.g + 1
    {
      var n := size;
      ValidMovesAreNeighbours(cur.blankIndex, n, m);
      ghost var t := Target(cur.blankIndex, m, n);
      var board := new int[|cur.state|](i requires 0 <= i < |cur.state| => cur.state[i]);
      assert board[..] == cur.state;
      var res := SlideArray(m, board, cur.blankIndex, ValidMoves(cur.blankIndex, n));
      var potentialBlank := res.value;
      assert potentialBlank == t && board[..] == Swap(cur.state, cur.blankIndex, t);
      assert Valid();
      var hvals := FindH(board[..], potentialBlank, cur.blankIndex, cur.md, cur.invVert, cur.invHor);
      c := Node(board[..], cur.g + 1, hvals.h, hvals.acc, hvals.vert, hvals.hor, cur.moves + [m],
                potentialBlank, cur.g + 1 + hvals.h);
      ChildOk(cur, m, n, root, rootBlank, rootHor, c);
    }

    /** One of the four blocks of `_exploreStates`: when `m` is legal from
        the state and does not undo its last move, push the child. */
    method Expand(cur: Node, m: Move, frontier: seq<Node>, maxDepth: nat,
                  ghost root: seq<int>, ghost rootBlank: int, ghost rootHor: int)
      returns (next: seq<Node>)
      requires Valid() && NodeOk(cur, size, root, rootBlank, rootHor) && cur.g <= maxDepth
      requires FrontierOk(frontier, maxDepth, size, root, rootBlank, rootHor)
      ensures FrontierOk(next, maxDepth, size, root, rootBlank, rootHor)
      ensures next == frontier ||
              (|next| == |frontier| + 1 && next[..|frontier|] == frontier &&
               next[|frontier|].moves == cur.moves + [m])
      ensures Weight(next, maxDepth) <= Weight(frontier, maxDepth) + Pow5(maxDepth - cur.g)
    {
      var ml := |cur.moves|;
      next := frontier;
      if m in ValidMoves(cur.blankIndex, size) && (ml == 0 || cur.moves[ml - 1] != Opposite(m)) {
        var child := Child(cur, m, root, rootBlank, rootHor);
        FrontierPush(frontier, child, maxDepth, size, root, rootBlank, rootHor);
        WeightConcat(frontier, [child], maxDepth);
        assert Weight([child], maxDepth) == NodeWeight(child, maxDepth);
        NodeWeightStep(cur, child, maxDepth);
        next := frontier + [child];
        assert next[..|frontier|] == frontier;
      }
    }

    /** `_exploreStates(maxDepth)`: pop the state that comes first, drop it
        when `f` exceeds the bound, return it when its heuristic is 0, and
        otherwise push its children for R, L, U, D that do not undo its
        last move. A state it returns is the goal board, reached from the
        instance's board by its moves within the bound. */
    method ExploreStates(maxDepth: nat) returns (found: Option<Node>, nodes: nat)
      requires Valid() && size >= 2
      requires md == ManhattanLinear(puzzle[..], size)
      requires invVert == Takahashi(Inversions(puzzle[..]), size)
      requires h == Max(md, invVert + invHor)
      ensures found.Some? ==>
                found.value.state == Goal(size) && found.value.blankIndex == size * size - 1 &&
                Solves(puzzle[..], blankIndex, found.value.moves, size) &&
                NoReversal(found.value.moves) && |found.value.moves| <= maxDepth &&
                |found.value.moves| % 2 == Colour(blankIndex, size)
      ensures nodes >= 1
    {
      ghost var root, rootBlank, rootHor := puzzle[..], blankIndex, invHor;
      var initState := Node(puzzle[..], 0, h, md, invVert, invHor, [], blankIndex, 0 + h);
      assert NodeOk(initState, size, root, rootBlank, rootHor);
      FrontierPush([], initState, maxDepth, size, root, rootBlank, rootHor);
      var frontier := [initState];
      nodes := 0;
      while |frontier| > 0
        invariant Valid()
        invariant FrontierOk(frontier, maxDepth, size, root, rootBlank, rootHor)
        invariant nodes >= 1 || |frontier| == 1
        decreases Weight(frontier, maxDepth)
      {
        ghost var before := Weight(frontier, maxDepth);
        var k := BestIndex(frontier);
        var cur := frontier[k];
        WeightRemove(frontier, k, maxDepth);
        FrontierRemove(frontier, k, maxDepth, size, root, rootBlank, rootHor);
        frontier := frontier[..k] + frontier[k + 1..];
        nodes := nodes + 1;
        if cur.f > maxDepth {
          continue;
        }
        NodeCostBounds(cur, size, root, rootBlank, rootHor);
        if cur.h == 0 {
          FoundIsGoal(cur, size, root, rootBlank, rootHor);
          return Some(cur), nodes;
        }
        ghost var step := Pow5(maxDepth - cur.g);
        NodeWeightStep(cur, cur.(g := cur.g + 1), maxDepth);
        assert before == Weight(frontier, maxDepth) + 5 * step;
        ghost var w0 := Weight(frontier, maxDepth);
        frontier := Expand(cur, R, frontier, maxDepth, root, rootBlank, rootHor);
        ghost var w1 := Weight(frontier, maxDepth);
        frontier := Expand(cur, L, frontier, maxDepth, root, rootBlank, rootHor);
        ghost var w2 := Weight(frontier, maxDepth);
        frontier := Expand(cur, U, frontier, maxDepth, root, rootBlank, rootHor);
        ghost var w3 := Weight(frontier, maxDepth);
        frontier := Expand(cur, D, frontier, maxDepth, root, rootBlank, rootHor);
        assert Weight(frontier, maxDepth) <= w3 + step <= w2 + 2 * step <= w1 + 3 * step <= w0 + 4 * step;
      }
      return None, nodes;
    }

    /** `solve()`: score the board from scratch and record the scores, then
        search with thresholds starting at the blank's colour and rising by
        2 until a search succeeds (the source never gives up; `fuel` bounds
        the number of thresholds tried). A returned state is a solution
        whose length has the parity of the blank's colour. */
    method Solve(fuel: nat) returns (r: Option<Node>)
      requires Valid() && size >= 2
      modifies this
      ensures Valid() && puzzle == old(puzzle) && blankIndex == old(blankIndex) && size == old(size) &&
              idealHor == old(idealHor)
      ensures md == ManhattanLinear(puzzle[..], size) && invVert == Takahashi(Inversions(puzzle[..]), size) &&
              invHor == 0 && h == Max(md, invVert + invHor) && g == 0 && f == h
      ensures r.Some? ==>
                Solves(puzzle[..], blankIndex, r.value.moves, size) &&
                NoReversal(r.value.moves) && |r.value.moves| % 2 == Colour(blankIndex, size)
    {
      var hvals := FindH(puzzle[..], 0, 0, 0, 0, 0);
      h := hvals.h;
      md := hvals.acc;
      invVert := hvals.vert;
      invHor := hvals.hor;
      g := 0;
      f := g + h;
      var maxDepth := 2;
      var i: nat := Colour(blankIndex, size);
      var nodes := 0;
      var tries := 0;
      while i < maxDepth && tries < fuel
        invariant Valid() && puzzle == old(puzzle) && blankIndex == old(blankIndex) && size == old(size) &&
                  idealHor == old(idealHor)
        invariant md == ManhattanLinear(puzzle[..], size) && invVert == Takahashi(Inversions(puzzle[..]), size) &&
                  invHor == 0 && h == Max(md, invVert + invHor) && g == 0 && f == h
        decreases fuel - tries
      {
        var res, count := ExploreStates(i);
        nodes := nodes + count;
        if res.None? {
          maxDepth := maxDepth + 2;
          i := i + 2;
          tries := tries + 1;
          continue;
        }
        return res;
      }
      return None;
    }
  }
}
