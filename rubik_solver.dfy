/** The earlier `RubikCube` of `RubikSolver.js`: face turns and outer-layer
    turns only, the list turned by popping and unshifting (or shifting and
    pushing) one sticker at a time. Its face turn is the one of
    `RubikClass.js`; its layer turn reads the partner columns of a turn
    about face 2 or 5 differently from the way it writes them. */
module RubikSolver {
  import opened CubeCells
  import opened CubeTurns
  import opened CubeFaces
  import opened CubePathLoops
  import opened CubeRingLoops
  import opened CubeSpin
  import opened RubikMoves
  import opened RubikReorient
  import opened RubikClass

  // ---------------------------------------------------------------------
  // Turning a list one place at a time

  /** `list.pop()` then `list.unshift(g)`: the last item moves to the front. */
  lemma PopUnshift<T>(l: seq<T>)
    requires |l| > 0
    ensures [l[|l| - 1]] + l[..|l| - 1] == RotRight(l, 1)
  {
    var n := |l|;
    forall j | 0 <= j < n
      ensures ([l[n - 1]] + l[..n - 1])[j] == RotRight(l, 1)[j]
    {
      WrapIsMod(j - 1, n);
      if j == 0 {
        ModUnique(-1, n, -1, n - 1);
      } else {
        ModUnique(j - 1, n, 0, j - 1);
      }
    }
  }

  /** `list.shift()` then `list.push(g)`: the first item moves to the back. */
  lemma ShiftPush<T>(l: seq<T>)
    requires |l| > 0
    ensures l[1..] + [l[0]] == RotRight(l, -1)
  {
    var n := |l|;
    forall j | 0 <= j < n
      ensures (l[1..] + [l[0]])[j] == RotRight(l, -1)[j]
    {
      WrapIsMod(j + 1, n);
      if j == n - 1 {
        ModUnique(n, n, 1, 0);
      } else {
        ModUnique(j + 1, n, 0, j + 1);
      }
    }
  }

  /** One pass of the inner rotation loops: `n` times `pop` and `unshift`
      when turning clockwise, `shift` and `push` otherwise. It moves the
      list `n` places, right or left, and within the list's length it does
      what `_rotateList` of `RubikClass.js` does with its splices. */
  method ShiftList(list0: seq<Sticker>, clockwise: bool, n: nat) returns (list: seq<Sticker>)
    requires |list0| > 0 || n == 0
    ensures list == RotRight(list0, if clockwise then n as int else -(n as int))
    ensures n <= |list0| ==> list == RotateList(list0, clockwise, n)
  {
    list := list0;
    var j := 0;
    while j < n
      invariant 0 <= j <= n && |list| == |list0|
      invariant list == RotRight(list0, if clockwise then j else -j)
    {
      var before := list;
      if clockwise {
        var g := list[|list| - 1];
        list := [g] + list[..|list| - 1];
        PopUnshift(before);
        RotRightCompose(list0, j, 1, j + 1);
      } else {
        var g := list[0];
        list := list[1..] + [g];
        ShiftPush(before);
        RotRightCompose(list0, -j, -1, -j - 1);
      }
      j := j + 1;
    }
    if n <= |list0| {
      RotateListRotates(list0, clockwise, n);
    }
  }

  /** The rotation loops of `rotateFace`: `for (k = 0; k < 2; k++)` over a
      pass, `continue` when `twice` is set and `break` otherwise. */
  method ShiftTwice(read: seq<Sticker>, clockwise: bool, twice: bool, n: nat) returns (list: seq<Sticker>)
    requires (|read| > 0 || n == 0) && n <= |read|
    ensures list == TurnList(read, clockwise, twice, n)
  {
    list := read;
    for k := 0 to 2
      invariant 0 < k ==> twice
      invariant k == 0 ==> list == read
      invariant k == 1 ==> list == RotateList(read, clockwise, n)
      invariant k == 2 ==> list == RotateList(RotateList(read, clockwise, n), clockwise, n)
    {
      list := ShiftList(list, clockwise, n);
      if !twice {
        assert list == TurnList(read, clockwise, twice, n);
        break;
      }
    }
  }

  /** The rotation loops of `rotateFaceLayer`: `temp` passes, 2 when
      `twice` is set and 1 otherwise. */
  method ShiftPasses(read: seq<Sticker>, clockwise: bool, twice: bool, n: nat) returns (list: seq<Sticker>)
    requires (|read| > 0 || n == 0) && n <= |read|
    ensures list == TurnList(read, clockwise, twice, n)
  {
    var temp := if twice then 2 else 1;
    list := read;
    for k := 0 to temp
      invariant k == 0 ==> list == read
      invariant k == 1 ==> list == RotateList(read, clockwise, n)
      invariant k == 2 ==> list == RotateList(RotateList(read, clockwise, n), clockwise, n)
    {
      list := ShiftList(list, clockwise, n);
    }
  }

  // ---------------------------------------------------------------------
  // Face turns

  /** The body of `rotateFace`'s loop: ring `i` is read into a list; the
      list is shifted `s - 1 - 2i` places, a second time when `twice` is
      set (`continue`, otherwise `break`); and the list is written back. */
  method ShiftRing(faces: Faces, s: int, f: int, i: int, clockwise: bool, twice: bool) returns (r: Faces)
    requires Shaped(faces, s) && 0 <= f < 6 && 0 <= i && 2 * i < s
    ensures r == TurnPath(faces, s, Ring(s, f, i), Steps(s, i, Quarters(clockwise, twice)))
  {
    var read := ReadRing(faces, s, f, i);
    assert |read| == RingLength(s, i);
    var n := s - 1 - 2 * i;
    var list := ShiftTwice(read, clockwise, twice, n);
    TurnedRing(faces, s, f, i, clockwise, twice, n, read, list);
    r := WriteRing(faces, s, f, i, list);
  }

  // ---------------------------------------------------------------------
  // The outer layer

  /** The cells of partner `p` that the first `for (let i in partners)`
      loop of `rotateFaceLayer` pushes, in push order. Column partners of a
      turn about face 2 or 5 are read top to bottom whatever their face. */
  function SolverReadSegment(s: int, f: int, p: int): (seg: seq<Cell>)
    requires 0 <= s && 0 <= f < 6
    ensures |seg| == s && Straight(s, p, seg) && (0 <= p < 6 ==> AllInCube(s, seg))
  {
    var q := Partnered(f, p);
    var g := if q then s - 1 else 0;
    if f % 3 == 0 then Row(s, p, if f / 3 == 1 then s - 1 else 0)
    else if f % 3 == 1 then
      if p % 3 == 0 then (if q then Row(s, p, s - 1) else RowBack(s, p, 0))
      else if p / 3 == 0 then Col(s, p, g) else ColBack(s, p, g)
    else Col(s, p, g)
  }

  /** The cells of partner `p` that the second loop writes, `j` from 0 up.
      Column partners of a turn about face 2 or 5 on faces 3 and 4 are
      written bottom to top. */
  function SolverWriteSegment(s: int, f: int, p: int): (seg: seq<Cell>)
    requires 0 <= s && 0 <= f < 6
    ensures |seg| == s && Straight(s, p, seg) && (0 <= p < 6 ==> AllInCube(s, seg))
  {
    var q := Partnered(f, p);
    var g := if q then s - 1 else 0;
    if f % 3 == 0 then Row(s, p, if f / 3 == 1 then s - 1 else 0)
    else if f % 3 == 1 then (if p % 3 == 0 then Row(s, p, g) else Col(s, p, g))
    else if p / 3 == 0 then Col(s, p, g) else ColBack(s, p, g)
  }

  function SolverReadSegments(s: int, f: int): seq<seq<Cell>>
    requires 0 <= s && 0 <= f < 6
  {
    seq(|Partners(f)|, k requires 0 <= k < |Partners(f)| => SolverReadSegment(s, f, Partners(f)[k]))
  }

  function SolverWriteSegments(s: int, f: int): seq<seq<Cell>>
    requires 0 <= s && 0 <= f < 6
  {
    seq(|Partners(f)|, k requires 0 <= k < |Partners(f)| => SolverWriteSegment(s, f, Partners(f)[k]))
  }

  lemma SolverSegments(s: int, f: int)
    requires 0 <= s && 0 <= f < 6
    ensures Segments(s, SolverReadSegments(s, f)) && Segments(s, SolverWriteSegments(s, f))
  {
    PartnersAxis(f);
  }

  /** Each partner's cells are written in the order they were read, or in
      the reverse order. */
  lemma SolverSegmentOrder(s: int, f: int, p: int)
    requires 0 <= s && 0 <= f < 6
    ensures var r, w := SolverReadSegment(s, f, p), SolverWriteSegment(s, f, p);
      w == r || forall k :: 0 <= k < s ==> w[k] == r[s - 1 - k]
  {
  }

  /** The layer's read path and write path: the partners' segments end to end. */
  function SolverReadStrip(s: int, f: int): (p: seq<Cell>)
    requires 0 <= s && 0 <= f < 6
    ensures |p| == 4 * s && AllInCube(s, p) && Distinct(p)
  {
    SolverReadStripFacts(s, f);
    Flatten(SolverReadSegments(s, f))
  }

  function SolverWriteStrip(s: int, f: int): (p: seq<Cell>)
    requires 0 <= s && 0 <= f < 6
    ensures |p| == 4 * s && AllInCube(s, p) && Distinct(p)
  {
    SolverWriteStripFacts(s, f);
    Flatten(SolverWriteSegments(s, f))
  }

  lemma SolverReadStripFacts(s: int, f: int)
    requires 0 <= s && 0 <= f < 6
    ensures var r := Flatten(SolverReadSegments(s, f));
      |r| == 4 * s && AllInCube(s, r) && Distinct(r)
  {
    PartnersAxis(f);
    var rs := SolverReadSegments(s, f);
    FlattenFour(rs);
    assert AllSegments(s, rs);
    FlattenInCube(s, rs);
    FlattenDistinct(rs, Partners(f));
  }

  lemma SolverWriteStripFacts(s: int, f: int)
    requires 0 <= s && 0 <= f < 6
    ensures var w := Flatten(SolverWriteSegments(s, f));
      |w| == 4 * s && AllInCube(s, w) && Distinct(w)
  {
    PartnersAxis(f);
    var ws := SolverWriteSegments(s, f);
    FlattenFour(ws);
    assert AllSegments(s, ws);
    FlattenInCube(s, ws);
    FlattenDistinct(ws, Partners(f));
  }

  /** `rotateFaceLayer` after its face turn: the layer read along the read
      strip, shifted `s` places per quarter turn in the direction
      `logicXor(f % 3 == 1, f >= 3)` flips, and written along the write
      strip. */
  function SolverTurnLayer(faces: Faces, s: int, f: int, clockwise: bool, twice: bool): (r: Faces)
    requires Shaped(faces, s) && 0 <= f < 6
    ensures Shaped(r, s)
  {
    Scatter(faces, s, SolverWriteStrip(s, f), TurnList(Gather(faces, s, SolverReadStrip(s, f)), LayerClockwise(f, clockwise), twice, s))
  }

  /** The whole of `rotateFaceLayer`: the face turn, then the layer. */
  function SolverFaceLayerTurn(faces: Faces, s: int, f: int, clockwise: bool, twice: bool): (r: Faces)
    requires Shaped(faces, s) && 0 <= f < 6
    ensures Shaped(r, s)
  {
    SolverTurnLayer(TurnFace(faces, s, f, Quarters(clockwise, twice)), s, f, clockwise, twice)
  }

  /** The layer's stickers end up moved `LayerShift` places along the write
      strip: `s` per quarter turn. */
  lemma SolverTurnLayerShifts(faces: Faces, s: int, f: int, clockwise: bool, twice: bool)
    requires Shaped(faces, s) && 0 <= f < 6
    ensures SolverTurnLayer(faces, s, f, clockwise, twice)
         == Scatter(faces, s, SolverWriteStrip(s, f), RotRight(Gather(faces, s, SolverReadStrip(s, f)), LayerShift(s, f, clockwise, twice)))
  {
    TurnListRotates(Gather(faces, s, SolverReadStrip(s, f)), LayerClockwise(f, clockwise), twice, s);
  }

  /** The read strip and the write strip hold the same stickers. */
  lemma SolverStripStickers(faces: Faces, s: int, f: int)
    requires Shaped(faces, s) && 0 <= f < 6
    ensures multiset(Gather(faces, s, SolverWriteStrip(s, f))) == multiset(Gather(faces, s, SolverReadStrip(s, f)))
  {
    PartnersAxis(f);
    var rs, ws := SolverReadSegments(s, f), SolverWriteSegments(s, f);
    forall k | 0 <= k < 4
      ensures ws[k] == rs[k] || (|ws[k]| == |rs[k]| && forall j :: 0 <= j < |rs[k]| ==> ws[k][j] == rs[k][|rs[k]| - 1 - j])
    {
      SolverSegmentOrder(s, f, Partners(f)[k]);
    }
    assert AllSegments(s, rs);
    SegmentsStickers(faces, s, rs, ws);
  }

  /** The layer turn writes into the very cells it read: a cell is on the
      write strip exactly when it is on the read strip. */
  lemma SolverStripCells(s: int, f: int, c: Cell)
    requires 0 <= s && 0 <= f < 6
    ensures c in SolverWriteStrip(s, f) <==> c in SolverReadStrip(s, f)
  {
    PartnersAxis(f);
    var rs, ws := SolverReadSegments(s, f), SolverWriteSegments(s, f);
    FlattenFour(rs);
    FlattenFour(ws);
    forall k | 0 <= k < 4
      ensures c in ws[k] <==> c in rs[k]
    {
      SegmentCells(s, f, Partners(f)[k], c);
    }
  }

  lemma SegmentCells(s: int, f: int, p: int, c: Cell)
    requires 0 <= s && 0 <= f < 6
    ensures c in SolverWriteSegment(s, f, p) <==> c in SolverReadSegment(s, f, p)
  {
    var r, w := SolverReadSegment(s, f, p), SolverWriteSegment(s, f, p);
    SolverSegmentOrder(s, f, p);
    if w != r {
      if c in w {
        var k :| 0 <= k < s && w[k] == c;
        assert r[s - 1 - k] == c;
      }
      if c in r {
        var k :| 0 <= k < s && r[k] == c;
        assert w[s - 1 - k] == c;
      }
    }
  }

  /** A layer turn keeps the cube's stickers. */
  lemma SolverTurnLayerStickers(faces: Faces, s: int, f: int, clockwise: bool, twice: bool)
    requires Shaped(faces, s) && 0 <= f < 6
    ensures Stickers(SolverTurnLayer(faces, s, f, clockwise, twice)) == Stickers(faces)
  {
    var w := SolverWriteStrip(s, f);
    var g := Gather(faces, s, SolverReadStrip(s, f));
    var v := RotRight(g, LayerShift(s, f, clockwise, twice));
    SolverTurnLayerShifts(faces, s, f, clockwise, twice);
    RotRightMultiset(g, LayerShift(s, f, clockwise, twice));
    SolverStripStickers(faces, s, f);
    ScatterStickers(faces, s, w, v);
    TradeEven(Stickers(SolverTurnLayer(faces, s, f, clockwise, twice)), Stickers(faces), multiset(v));
  }

  /** So does the whole of `rotateFaceLayer`. */
  lemma SolverFaceLayerTurnStickers(faces: Faces, s: int, f: int, clockwise: bool, twice: bool)
    requires Shaped(faces, s) && 0 <= f < 6
    ensures Stickers(SolverFaceLayerTurn(faces, s, f, clockwise, twice)) == Stickers(faces)
  {
    TurnFaceStickers(faces, s, f, Quarters(clockwise, twice));
    SolverTurnLayerStickers(TurnFace(faces, s, f, Quarters(clockwise, twice)), s, f, clockwise, twice);
  }

  /** Every cell off the strip keeps its sticker. */
  lemma SolverTurnLayerOff(faces: Faces, s: int, f: int, clockwise: bool, twice: bool, c: Cell)
    requires Shaped(faces, s) && 0 <= f < 6 && InCube(s, c)
    requires c !in SolverReadStrip(s, f)
    ensures At(SolverTurnLayer(faces, s, f, clockwise, twice), s, c) == At(faces, s, c)
  {
    SolverStripCells(s, f, c);
    ScatterOff(faces, s, SolverWriteStrip(s, f), TurnList(Gather(faces, s, SolverReadStrip(s, f)), LayerClockwise(f, clockwise), twice, s), c);
  }

  /** Except about faces 2 and 5, the layer turn is the outer-layer turn of
      `RubikClass.js`'s `rotateLayer`. */
  lemma SolverTurnLayerAgrees(faces: Faces, s: int, f: int, clockwise: bool, twice: bool)
    requires Shaped(faces, s) && 0 <= f < 6 && 0 < s && f % 3 != 2
    ensures SolverTurnLayer(faces, s, f, clockwise, twice) == TurnLayer(faces, s, f, 0, clockwise, twice)
  {
    PartnersAxis(f);
    assert SolverReadSegments(s, f) == ReadSegments(s, f, 0) by {
      forall k | 0 <= k < 4
        ensures SolverReadSegments(s, f)[k] == ReadSegments(s, f, 0)[k]
      {
        SameSegments(s, f, Partners(f)[k]);
      }
    }
    assert SolverWriteSegments(s, f) == WriteSegments(s, f, 0) by {
      forall k | 0 <= k < 4
        ensures SolverWriteSegments(s, f)[k] == WriteSegments(s, f, 0)[k]
      {
        SameSegments(s, f, Partners(f)[k]);
      }
    }
  }

  lemma SameSegments(s: int, f: int, p: int)
    requires 0 < s && 0 <= f < 6 && f % 3 != 2
    ensures SolverReadSegment(s, f, p) == ReadSegment(s, f, 0, p)
    ensures SolverWriteSegment(s, f, p) == WriteSegment(s, f, 0, p)
  {
  }

  /** The strips of a turn about face 2: every partner column is read top
      to bottom, but faces 3 and 4 are written bottom to top. */
  lemma SideStrips(s: int)
    requires 0 < s
    ensures SolverReadStrip(s, 2) == Col(s, 0, 0) + Col(s, 1, 0) + Col(s, 3, 0) + Col(s, 4, s - 1)
    ensures SolverWriteStrip(s, 2) == Col(s, 0, 0) + Col(s, 1, 0) + ColBack(s, 3, 0) + ColBack(s, 4, s - 1)
  {
    PartnersAxis(2);
    FlattenFour(SolverReadSegments(s, 2));
    FlattenFour(SolverWriteSegments(s, 2));
  }

  /** As written, turning the outer layer about face 2 counter-clockwise
      and then clockwise leaves face 0's first column upside down: its top
      cell ends up holding what its bottom cell held. */
  lemma SideLayerNotUndone(faces: Faces, s: int)
    requires Shaped(faces, s) && 2 <= s
    ensures At(SolverTurnLayer(SolverTurnLayer(faces, s, 2, false, false), s, 2, true, false), s, Cell(0, 0, 0))
         == At(faces, s, Cell(0, s - 1, 0))
  {
    var r, w := SolverReadStrip(s, 2), SolverWriteStrip(s, 2);
    SideStripEnds(s);
    assert LayerShift(s, 2, false, false) == -s;
    assert LayerShift(s, 2, true, false) == s;
    SolverTurnLayerShifts(faces, s, 2, false, false);
    var once := SolverTurnLayer(faces, s, 2, false, false);
    SolverTurnLayerShifts(once, s, 2, true, false);
    LeftThenRight(faces, s, r, w);
  }

  lemma SideStripEnds(s: int)
    requires 0 < s
    ensures var r, w := SolverReadStrip(s, 2), SolverWriteStrip(s, 2);
      w[0] == Cell(0, 0, 0) && r[3 * s] == w[4 * s - 1] && r[s - 1] == Cell(0, s - 1, 0)
  {
    SideStrips(s);
    assert SolverWriteStrip(s, 2)[4 * s - 1] == Cell(4, 0, s - 1);
  }

  /** So a cube whose face 0 has two different stickers at the ends of its
      first column is not restored. */
  lemma SideLayerTurnBack(faces: Faces, s: int)
    requires Shaped(faces, s) && 2 <= s
    requires At(faces, s, Cell(0, 0, 0)) != At(faces, s, Cell(0, s - 1, 0))
    ensures SolverTurnLayer(SolverTurnLayer(faces, s, 2, false, false), s, 2, true, false) != faces
  {
    SideLayerNotUndone(faces, s);
  }

  // ---------------------------------------------------------------------
  // The class

  class RubikCube {
    /** `_faces`: U, F, L, D, B, R, each a grid of rows. */
    var faces: Faces
    /** `_size`: the length of the first face. */
    const size: int

    ghost predicate Valid()
      reads this
    {
      Shaped(faces, size)
    }

    /** The cube from its six faces, all `size` by `size`. */
    constructor (face0: seq<seq<Sticker>>, face1: seq<seq<Sticker>>, face2: seq<seq<Sticker>>,
                 face3: seq<seq<Sticker>>, face4: seq<seq<Sticker>>, face5: seq<seq<Sticker>>)
      requires Square(face0, |face0|) && Square(face1, |face0|) && Square(face2, |face0|)
      requires Square(face3, |face0|) && Square(face4, |face0|) && Square(face5, |face0|)
      ensures Valid() && size == |face0| && faces == [face0, face1, face2, face3, face4, face5]
    {
      faces := Six(face0, face1, face2, face3, face4, face5, |face0|);
      size := |face0|;
    }

    /** `rotateFace`: every ring of face `f`, from the outside in, is read
        into a list, shifted by the ring's side length once or twice, and
        written back. */
    method RotateFace(f: int, clockwise: bool, twice: bool)
      requires Valid() && 0 <= f < 6
      modifies this
      ensures Valid()
      ensures faces == TurnFace(old(faces), size, f, Quarters(clockwise, twice))
    {
      ghost var start := faces;
      ghost var m := Quarters(clockwise, twice);
      var i := 0;
      while 2 * i < size
        invariant 0 <= i <= RingCount(size)
        invariant Shaped(faces, size)
        invariant faces == RingsTurned(start, size, f, m, i)
      {
        RingsTurnedStep(start, size, f, m, i);
        faces := ShiftRing(faces, size, f, i, clockwise, twice);
        i := i + 1;
      }
      RingsTurnedAll(start, size, f, m);
    }

    /** `rotateFaceLayer`: the partners, the face turn, the outer layer read
        into one list, shifted `size` places once or twice, and written
        back. */
    method RotateFaceLayer(f: int, clockwise: bool, twice: bool)
      requires Valid() && 0 <= f < 6
      modifies this
      ensures Valid()
      ensures faces == SolverFaceLayerTurn(old(faces), size, f, clockwise, twice)
    {
      var partners := PartnerFaces(f);
      RotateFace(f, clockwise, twice);
      var read := ReadSolverLayer(faces, size, f, partners);
      var direction := LayerClockwise(f, clockwise);
      var list := ShiftPasses(read, direction, twice, size);
      faces := WriteSolverLayer(faces, size, f, partners, list);
    }
  }

  /** The first `for (let i in partners)` loop of `rotateFaceLayer`. */
  method ReadSolverLayer(faces: Faces, s: int, f: int, partners: seq<int>) returns (list: seq<Sticker>)
    requires Shaped(faces, s) && 0 <= f < 6 && partners == Partners(f)
    ensures list == Gather(faces, s, SolverReadStrip(s, f))
  {
    ghost var rs := SolverReadSegments(s, f);
    SolverSegments(s, f);
    PartnersAxis(f);
    list := [];
    var k := 0;
    while k < |partners|
      invariant 0 <= k <= 4
      invariant list == Gather(faces, s, Prefix(s, rs, k))
    {
      ReadStep(faces, s, rs, k);
      list := ReadPath(faces, s, SolverReadSegment(s, f, partners[k]), list);
      k := k + 1;
    }
    PrefixAll(s, rs);
  }

  /** The second `for (let i in partners)` loop: `size` stickers shifted off
      the list onto each partner's write segment. */
  method WriteSolverLayer(faces: Faces, s: int, f: int, partners: seq<int>, list: seq<Sticker>) returns (r: Faces)
    requires Shaped(faces, s) && 0 <= f < 6 && partners == Partners(f) && |list| == 4 * s
    ensures r == Scatter(faces, s, SolverWriteStrip(s, f), list)
  {
    SolverSegments(s, f);
    PartnersAxis(f);
    var segs := seq(4, k requires 0 <= k < 4 => SolverWriteSegment(s, f, partners[k]));
    assert segs == SolverWriteSegments(s, f);
    r := WriteSegmentsLoop(faces, s, segs, list);
  }
}
