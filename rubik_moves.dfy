/** What the turns of `RubikClass.js` do, as functions of the stickers:
    `logicXor`, `_rotateList`, the faces a layer turn crosses, the cells
    `rotateLayer` reads and writes on each of them, and the turn of a layer
    those make up. The class in `rubik_class.dfy` is proved against these. */
module RubikMoves {
  import opened CubeCells
  import opened CubeTurns
  import opened CubeFaces
  import opened CubePathLoops

  /** `logicXor(a, b)`: true when exactly one of the two holds. */
  function LogicXor(a: bool, b: bool): (r: bool)
    ensures r <==> a != b
  {
    (a && !b) || (b && !a)
  }

  /** `_rotateList(list, clockwise, size)`. Clockwise, `splice(-size, size)`
      cuts the last `size` items (all of them when `size` exceeds the
      length) and puts them in front; counter-clockwise, `splice(0, size)`
      cuts the first `size` items and puts them at the back. */
  function RotateList<T>(list: seq<T>, clockwise: bool, size: nat): (r: seq<T>)
    ensures |r| == |list| && multiset(r) == multiset(list)
  {
    var cut := if clockwise then (if size <= |list| then |list| - size else 0)
               else (if size <= |list| then size else |list|);
    assert list == list[..cut] + list[cut..];
    list[cut..] + list[..cut]
  }

  /** Within the list's length, a clockwise `_rotateList` moves every item
      `size` places right, cyclically, and a counter-clockwise one `size`
      places left. */
  lemma RotateListRotates<T>(list: seq<T>, clockwise: bool, size: nat)
    requires size <= |list|
    ensures RotateList(list, clockwise, size) == RotRight(list, if clockwise then size as int else -(size as int))
  {
    var n := |list|;
    if n > 0 {
      var m := if clockwise then size as int else -(size as int);
      RotRightSplit(list, m);
      if clockwise {
        if size == n {
          assert m % n == 0 by { ModUnique(m, n, 1, 0); }
          assert list[n..] + list[..n] == list[0..] + list[..0];
        } else {
          ModUnique(m, n, 0, size);
        }
      } else {
        if size == 0 {
          ModUnique(m, n, 0, 0);
          assert list[n..] + list[..n] == list[0..] + list[..0];
        } else {
          ModUnique(m, n, -1, n - size);
        }
      }
    }
  }

  /** A clockwise `_rotateList` and a counter-clockwise one of the same
      size undo each other, whatever the size. */
  lemma RotateListInverse<T>(list: seq<T>, clockwise: bool, size: nat)
    ensures RotateList(RotateList(list, clockwise, size), !clockwise, size) == list
  {
    var n := |list|;
    var cut := if clockwise then (if size <= n then n - size else 0)
               else (if size <= n then size else n);
    var once := list[cut..] + list[..cut];
    assert RotateList(list, clockwise, size) == once;
    var back := if !clockwise then (if size <= n then n - size else 0)
                else (if size <= n then size else n);
    assert RotateList(once, !clockwise, size) == once[back..] + once[..back];
    assert back == n - cut;
    assert once[back..] == list[..cut];
    assert once[..back] == list[cut..];
    assert list == list[..cut] + list[cut..];
  }

  /** `_partnership[f].includes(p)`: on a turn about face `f`, partner `p`
      is read from its "high" end, `size - 1 - layer`. */
  predicate Partnered(f: int, p: int)
  {
    || (f == 1 && (p == 0 || p == 2))
    || (f == 2 && p == 4)
    || (f == 4 && (p == 3 || p == 5))
    || (f == 5 && (p == 0 || p == 1 || p == 3))
  }

  /** The `partners` the first loop of `rotateLayer` collects while `i`
      runs up to `n`: the faces `i < n` with `i % 3 != f % 3`, in order. */
  function PartnersBelow(f: int, n: nat): seq<int>
  {
    if n == 0 then []
    else PartnersBelow(f, n - 1) + (if (n - 1) % 3 != f % 3 then [n - 1] else [])
  }

  function Partners(f: int): seq<int>
  {
    PartnersBelow(f, 6)
  }

  /** A turn about face `f` crosses the four faces off `f`'s axis, in
      increasing order. */
  lemma PartnersAxis(f: int)
    requires 0 <= f < 6
    ensures Partners(f) == if f % 3 == 0 then [1, 2, 4, 5] else if f % 3 == 1 then [0, 2, 3, 5] else [0, 1, 3, 4]
    ensures forall p :: p in Partners(f) <==> 0 <= p < 6 && p % 3 != f % 3
  {
    assert PartnersBelow(f, 1) == if f % 3 != 0 then [0] else [];
    assert PartnersBelow(f, 2) == PartnersBelow(f, 1) + if f % 3 != 1 then [1] else [];
    assert PartnersBelow(f, 3) == PartnersBelow(f, 2) + if f % 3 != 2 then [2] else [];
    assert PartnersBelow(f, 4) == PartnersBelow(f, 3) + if f % 3 != 0 then [3] else [];
    assert PartnersBelow(f, 5) == PartnersBelow(f, 4) + if f % 3 != 1 then [4] else [];
  }

  /** A segment on face `p` that visits no cell twice. */
  predicate Straight(s: int, p: int, seg: seq<Cell>)
  {
    Distinct(seg) && forall k :: 0 <= k < |seg| ==> seg[k].face == p
  }

  /** Row `r` of face `p`, left to right, and right to left. */
  function Row(s: int, p: int, r: int): (seg: seq<Cell>)
    requires 0 <= s
    ensures |seg| == s && Straight(s, p, seg) && (0 <= p < 6 && 0 <= r < s ==> AllInCube(s, seg))
  {
    seq(s, j requires 0 <= j < s => Cell(p, r, j))
  }

  function RowBack(s: int, p: int, r: int): (seg: seq<Cell>)
    requires 0 <= s
    ensures |seg| == s && Straight(s, p, seg) && (0 <= p < 6 && 0 <= r < s ==> AllInCube(s, seg))
  {
    seq(s, j requires 0 <= j < s => Cell(p, r, s - 1 - j))
  }

  /** Column `c` of face `p`, top to bottom, and bottom to top. */
  function Col(s: int, p: int, c: int): (seg: seq<Cell>)
    requires 0 <= s
    ensures |seg| == s && Straight(s, p, seg) && (0 <= p < 6 && 0 <= c < s ==> AllInCube(s, seg))
  {
    seq(s, j requires 0 <= j < s => Cell(p, j, c))
  }

  function ColBack(s: int, p: int, c: int): (seg: seq<Cell>)
    requires 0 <= s
    ensures |seg| == s && Straight(s, p, seg) && (0 <= p < 6 && 0 <= c < s ==> AllInCube(s, seg))
  {
    seq(s, j requires 0 <= j < s => Cell(p, s - 1 - j, c))
  }

  /** In row or column `L` or `s - 1 - L`. */
  predicate OnLayer(s: int, L: int, c: Cell)
  {
    c.row == L || c.row == s - 1 - L || c.col == L || c.col == s - 1 - L
  }

  /** Layer `L` (counted from 0) of a turn about face `f` exists. */
  predicate IsLayer(s: int, f: int, L: int)
  {
    0 <= f < 6 && 0 <= L < s
  }

  /** The cells of partner `p` that the first `for (let i in partners)`
      loop of `rotateLayer` pushes, in push order. */
  function ReadSegment(s: int, f: int, L: int, p: int): (seg: seq<Cell>)
    requires IsLayer(s, f, L)
    ensures |seg| == s && Straight(s, p, seg) && (0 <= p < 6 ==> AllInCube(s, seg))
    ensures forall k :: 0 <= k < s ==> OnLayer(s, L, seg[k])
  {
    var q := Partnered(f, p);
    var g := if q then s - 1 - L else L;
    if f % 3 == 0 then Row(s, p, if f / 3 == 1 then s - 1 - L else L)
    else if f % 3 == 1 then
      if p % 3 == 0 then (if q then Row(s, p, s - 1 - L) else RowBack(s, p, L))
      else if p / 3 == 0 then Col(s, p, g) else ColBack(s, p, g)
    else if p / 3 == 0 || p == 3 then Col(s, p, g) else ColBack(s, p, g)
  }

  /** The cells of partner `p` that the second loop writes, `j` from 0 up. */
  function WriteSegment(s: int, f: int, L: int, p: int): (seg: seq<Cell>)
    requires IsLayer(s, f, L)
    ensures |seg| == s && Straight(s, p, seg) && (0 <= p < 6 ==> AllInCube(s, seg))
    ensures forall k :: 0 <= k < s ==> OnLayer(s, L, seg[k])
  {
    var q := Partnered(f, p);
    var g := if q then s - 1 - L else L;
    if f % 3 == 0 then Row(s, p, if f / 3 == 1 then s - 1 - L else L)
    else if f % 3 == 1 then
      if p % 3 == 0 then Row(s, p, g) else Col(s, p, g)
    else if p / 3 == 0 || p == 3 then Col(s, p, g) else ColBack(s, p, g)
  }

  function ReadSegments(s: int, f: int, L: int): (segs: seq<seq<Cell>>)
    requires IsLayer(s, f, L)
  {
    seq(|Partners(f)|, k requires 0 <= k < |Partners(f)| => ReadSegment(s, f, L, Partners(f)[k]))
  }

  function WriteSegments(s: int, f: int, L: int): (segs: seq<seq<Cell>>)
    requires IsLayer(s, f, L)
  {
    seq(|Partners(f)|, k requires 0 <= k < |Partners(f)| => WriteSegment(s, f, L, Partners(f)[k]))
  }

  /** Each partner's cells are written in the order they were read, or in
      the reverse order; in the same order whenever the turn is not about
      face 1 or 4. */
  lemma SegmentOrder(s: int, f: int, L: int, p: int)
    requires IsLayer(s, f, L)
    ensures var r, w := ReadSegment(s, f, L, p), WriteSegment(s, f, L, p);
      w == r || forall k :: 0 <= k < s ==> w[k] == r[s - 1 - k]
    ensures f % 3 != 1 ==> WriteSegment(s, f, L, p) == ReadSegment(s, f, L, p)
  {
  }

  /** The path the layer is read along: the partners' read segments end to end. */
  function ReadStrip(s: int, f: int, L: int): (p: seq<Cell>)
    requires IsLayer(s, f, L)
    ensures |p| == 4 * s && AllInCube(s, p) && Distinct(p)
  {
    ReadStripFacts(s, f, L);
    Flatten(ReadSegments(s, f, L))
  }

  /** The path the rotated list is written back along. */
  function WriteStrip(s: int, f: int, L: int): (p: seq<Cell>)
    requires IsLayer(s, f, L)
    ensures |p| == 4 * s && AllInCube(s, p) && Distinct(p)
  {
    WriteStripFacts(s, f, L);
    Flatten(WriteSegments(s, f, L))
  }

  lemma ReadStripFacts(s: int, f: int, L: int)
    requires IsLayer(s, f, L)
    ensures var r := Flatten(ReadSegments(s, f, L));
      |r| == 4 * s && AllInCube(s, r) && Distinct(r)
  {
    PartnersAxis(f);
    var rs := ReadSegments(s, f, L);
    FlattenFour(rs);
    assert AllSegments(s, rs);
    FlattenInCube(s, rs);
    FlattenDistinct(rs, Partners(f));
  }

  lemma WriteStripFacts(s: int, f: int, L: int)
    requires IsLayer(s, f, L)
    ensures var w := Flatten(WriteSegments(s, f, L));
      |w| == 4 * s && AllInCube(s, w) && Distinct(w)
  {
    PartnersAxis(f);
    var ws := WriteSegments(s, f, L);
    FlattenFour(ws);
    assert AllSegments(s, ws);
    FlattenInCube(s, ws);
    FlattenDistinct(ws, Partners(f));
  }

  /** The direction `rotateLayer` turns its list: reversed, by
      `logicXor(f % 3 == 1, f >= 3)`, for faces 1, 3 and 5. */
  function LayerClockwise(f: int, clockwise: bool): bool
  {
    if LogicXor(f % 3 == 1, f >= 3) then !clockwise else clockwise
  }

  /** `if (twice) list = _rotateList(list, clockwise, size);` followed by
      `list = _rotateList(list, clockwise, size);`. */
  function TurnList<T>(list: seq<T>, clockwise: bool, twice: bool, size: nat): (r: seq<T>)
    ensures |r| == |list| && multiset(r) == multiset(list)
  {
    RotateList(if twice then RotateList(list, clockwise, size) else list, clockwise, size)
  }

  /** Within the list's length that rotates the list by `size` per quarter
      turn, clockwise to the right. */
  lemma TurnListRotates<T>(list: seq<T>, clockwise: bool, twice: bool, size: nat)
    requires size <= |list|
    ensures TurnList(list, clockwise, twice, size) == RotRight(list, Times(Quarters(clockwise, twice), size))
  {
    var step := if clockwise then size as int else -(size as int);
    TimesIsMul(Quarters(clockwise, twice), size);
    RotateListRotates(list, clockwise, size);
    if twice {
      RotateListRotates(RotateList(list, clockwise, size), clockwise, size);
      RotRightCompose(list, step, step, step + step);
    }
  }

  /** `rotateLayer(f, L + 1, clockwise, twice)`: read the layer along the
      read strip, `_rotateList` it once or twice by a side's length, write
      it back along the write strip. */
  function TurnLayer(faces: Faces, s: int, f: int, L: int, clockwise: bool, twice: bool): (r: Faces)
    requires Shaped(faces, s) && IsLayer(s, f, L)
    ensures Shaped(r, s)
  {
    Scatter(faces, s, WriteStrip(s, f, L), TurnList(Gather(faces, s, ReadStrip(s, f, L)), LayerClockwise(f, clockwise), twice, s))
  }

  /** How far the layer's list moves: one side's length per quarter turn. */
  function LayerShift(s: int, f: int, clockwise: bool, twice: bool): int
  {
    Times(Quarters(LayerClockwise(f, clockwise), twice), s)
  }

  /** The layer's stickers end up rotated by `LayerShift` along the write strip. */
  lemma TurnLayerShifts(faces: Faces, s: int, f: int, L: int, clockwise: bool, twice: bool)
    requires Shaped(faces, s) && IsLayer(s, f, L)
    ensures TurnLayer(faces, s, f, L, clockwise, twice)
         == Scatter(faces, s, WriteStrip(s, f, L), RotRight(Gather(faces, s, ReadStrip(s, f, L)), LayerShift(s, f, clockwise, twice)))
  {
    TurnListRotates(Gather(faces, s, ReadStrip(s, f, L)), LayerClockwise(f, clockwise), twice, s);
  }

  /** Read and write strips hold the same stickers, reversed segments and all. */
  lemma StripStickers(faces: Faces, s: int, f: int, L: int)
    requires Shaped(faces, s) && IsLayer(s, f, L)
    ensures multiset(Gather(faces, s, WriteStrip(s, f, L))) == multiset(Gather(faces, s, ReadStrip(s, f, L)))
  {
    PartnersAxis(f);
    var rs, ws := ReadSegments(s, f, L), WriteSegments(s, f, L);
    forall k | 0 <= k < 4
      ensures ws[k] == rs[k] || (|ws[k]| == |rs[k]| && forall j :: 0 <= j < |rs[k]| ==> ws[k][j] == rs[k][|rs[k]| - 1 - j])
    {
      SegmentOrder(s, f, L, Partners(f)[k]);
    }
    assert AllSegments(s, rs);
    SegmentsStickers(faces, s, rs, ws);
  }

  /** Segments read forwards or backwards hold the same stickers. */
  lemma SegmentsStickers(faces: Faces, s: int, rs: seq<seq<Cell>>, ws: seq<seq<Cell>>)
    requires Shaped(faces, s) && |rs| == 4 && |ws| == 4 && AllSegments(s, rs)
    requires forall k :: 0 <= k < 4 ==>
      ws[k] == rs[k] || (|ws[k]| == |rs[k]| && forall j :: 0 <= j < |rs[k]| ==> ws[k][j] == rs[k][|rs[k]| - 1 - j])
    ensures AllSegments(s, ws) && AllInCube(s, Flatten(rs)) && AllInCube(s, Flatten(ws))
    ensures multiset(Gather(faces, s, Flatten(ws))) == multiset(Gather(faces, s, Flatten(rs)))
  {
    forall k | 0 <= k < 4
      ensures AllInCube(s, ws[k]) && multiset(Gather(faces, s, ws[k])) == multiset(Gather(faces, s, rs[k]))
    {
      if ws[k] != rs[k] {
        GatherReverse(faces, s, rs[k], ws[k]);
      }
    }
    FlattenFour(rs);
    FlattenFour(ws);
    GatherFour(faces, s, rs);
    GatherFour(faces, s, ws);
  }

  lemma GatherFour(faces: Faces, s: int, segs: seq<seq<Cell>>)
    requires Shaped(faces, s) && |segs| == 4 && AllSegments(s, segs)
    ensures AllInCube(s, segs[0] + segs[1] + segs[2] + segs[3])
    ensures multiset(Gather(faces, s, segs[0] + segs[1] + segs[2] + segs[3]))
         == multiset(Gather(faces, s, segs[0])) + multiset(Gather(faces, s, segs[1]))
          + multiset(Gather(faces, s, segs[2])) + multiset(Gather(faces, s, segs[3]))
  {
    AllInCubeAppend(s, segs[0], segs[1]);
    AllInCubeAppend(s, segs[0] + segs[1], segs[2]);
    AllInCubeAppend(s, segs[0] + segs[1] + segs[2], segs[3]);
    GatherAppend(faces, s, segs[0], segs[1]);
    GatherAppend(faces, s, segs[0] + segs[1], segs[2]);
    GatherAppend(faces, s, segs[0] + segs[1] + segs[2], segs[3]);
  }

  /** A layer turn keeps the cube's stickers. */
  lemma TurnLayerStickers(faces: Faces, s: int, f: int, L: int, clockwise: bool, twice: bool)
    requires Shaped(faces, s) && IsLayer(s, f, L)
    ensures Stickers(TurnLayer(faces, s, f, L, clockwise, twice)) == Stickers(faces)
  {
    var w := WriteStrip(s, f, L);
    var v := RotRight(Gather(faces, s, ReadStrip(s, f, L)), LayerShift(s, f, clockwise, twice));
    TurnLayerShifts(faces, s, f, L, clockwise, twice);
    RotRightMultiset(Gather(faces, s, ReadStrip(s, f, L)), LayerShift(s, f, clockwise, twice));
    StripStickers(faces, s, f, L);
    ScatterStickers(faces, s, w, v);
    TradeEven(Stickers(TurnLayer(faces, s, f, L, clockwise, twice)), Stickers(faces), multiset(v));
  }

  /** A layer turn leaves every cell off the strip alone. */
  lemma TurnLayerOff(faces: Faces, s: int, f: int, L: int, clockwise: bool, twice: bool, c: Cell)
    requires Shaped(faces, s) && IsLayer(s, f, L) && InCube(s, c)
    requires c !in WriteStrip(s, f, L)
    ensures At(TurnLayer(faces, s, f, L, clockwise, twice), s, c) == At(faces, s, c)
  {
    ScatterOff(faces, s, WriteStrip(s, f, L), TurnList(Gather(faces, s, ReadStrip(s, f, L)), LayerClockwise(f, clockwise), twice, s), c);
  }

  /** Every cell of the strip lies on a partner face, in row or column `L`
      or `s - 1 - L`. */
  lemma StripCells(s: int, f: int, L: int)
    requires IsLayer(s, f, L)
    ensures forall c :: c in WriteStrip(s, f, L) ==> c.face in Partners(f) && OnLayer(s, L, c)
  {
    PartnersAxis(f);
    var ws := WriteSegments(s, f, L);
    FlattenFour(ws);
    forall c | c in WriteStrip(s, f, L)
      ensures c.face in Partners(f) && OnLayer(s, L, c)
    {
      var k :| 0 <= k < 4 && c in ws[k];
      var j :| 0 <= j < |ws[k]| && ws[k][j] == c;
    }
  }

  /** On the faces whose turns read and write alike (all but 1 and 4), a
      turn and the opposite turn undo each other. */
  lemma TurnLayerInverse(faces: Faces, s: int, f: int, L: int, clockwise: bool, twice: bool)
    requires Shaped(faces, s) && IsLayer(s, f, L) && f % 3 != 1
    ensures TurnLayer(TurnLayer(faces, s, f, L, clockwise, twice), s, f, L, !clockwise, twice) == faces
  {
    var r := ReadStrip(s, f, L);
    PartnersAxis(f);
    assert WriteSegments(s, f, L) == ReadSegments(s, f, L) by {
      forall k | 0 <= k < 4
        ensures WriteSegments(s, f, L)[k] == ReadSegments(s, f, L)[k]
      {
        SegmentOrder(s, f, L, Partners(f)[k]);
      }
    }
    var a, b := LayerShift(s, f, clockwise, twice), LayerShift(s, f, !clockwise, twice);
    TimesIsMul(Quarters(LayerClockwise(f, clockwise), twice), s);
    TimesIsMul(Quarters(LayerClockwise(f, !clockwise), twice), s);
    assert a + b == 0;
    var once := TurnLayer(faces, s, f, L, clockwise, twice);
    TurnLayerShifts(faces, s, f, L, clockwise, twice);
    TurnLayerShifts(once, s, f, L, !clockwise, twice);
    assert once == TurnPath(faces, s, r, a);
    TurnPathCompose(faces, s, r, a, b, 0);
    TurnPathWhole(faces, s, r, 0);
  }

  /** The strips of a turn of the outer layer about face 1. */
  lemma FrontStrips(s: int)
    requires 0 < s
    ensures ReadStrip(s, 1, 0) == Row(s, 0, s - 1) + Col(s, 2, s - 1) + RowBack(s, 3, 0) + ColBack(s, 5, 0)
    ensures WriteStrip(s, 1, 0) == Row(s, 0, s - 1) + Col(s, 2, s - 1) + Row(s, 3, 0) + Col(s, 5, 0)
  {
    PartnersAxis(1);
    FlattenFour(ReadSegments(s, 1, 0));
    FlattenFour(WriteSegments(s, 1, 0));
  }

  /** Turning a path of `4s` cells `s` places left along `w` and then `s`
      places right, each time reading along `r`, brings to `w[0]` what
      `r[s - 1]` held whenever `r[3s]` is `w`'s last cell. */
  lemma LeftThenRight(faces: Faces, s: int, r: seq<Cell>, w: seq<Cell>)
    requires Shaped(faces, s) && 0 < s && |r| == 4 * s && |w| == 4 * s
    requires AllInCube(s, r) && AllInCube(s, w) && Distinct(w) && r[3 * s] == w[4 * s - 1]
    ensures var once := Scatter(faces, s, w, RotRight(Gather(faces, s, r), -s));
      At(Scatter(once, s, w, RotRight(Gather(once, s, r), s)), s, w[0]) == At(faces, s, r[s - 1])
  {
    var g := Gather(faces, s, r);
    var v1 := RotRight(g, -s);
    var once := Scatter(faces, s, w, v1);
    var h := Gather(once, s, r);
    var v2 := RotRight(h, s);
    ScatterAt(once, s, w, v2, 0);
    assert Back(0, s, 4 * s) == 3 * s by {
      WrapIsMod(-s, 4 * s);
      ModUnique(-s, 4 * s, -1, 3 * s);
    }
    assert v2[0] == h[3 * s] == At(once, s, w[4 * s - 1]);
    ScatterAt(faces, s, w, v1, 4 * s - 1);
    assert Back(4 * s - 1, -s, 4 * s) == s - 1 by {
      WrapIsMod(5 * s - 1, 4 * s);
      ModUnique(5 * s - 1, 4 * s, 1, s - 1);
    }
  }

  /** As written, turning the outer layer about face 1 clockwise and then
      counter-clockwise leaves face 0's last row reversed: its first cell
      ends up holding what its last cell held. */
  lemma FrontLayerNotUndone(faces: Faces, s: int)
    requires Shaped(faces, s) && 2 <= s
    ensures At(TurnLayer(TurnLayer(faces, s, 1, 0, true, false), s, 1, 0, false, false), s, Cell(0, s - 1, 0))
         == At(faces, s, Cell(0, s - 1, s - 1))
  {
    var r, w := ReadStrip(s, 1, 0), WriteStrip(s, 1, 0);
    FrontStrips(s);
    assert w[0] == Cell(0, s - 1, 0);
    assert r[3 * s] == Cell(5, s - 1, 0) == w[4 * s - 1];
    assert r[s - 1] == Cell(0, s - 1, s - 1);
    assert LayerShift(s, 1, true, false) == -s;
    assert LayerShift(s, 1, false, false) == s;
    TurnLayerShifts(faces, s, 1, 0, true, false);
    var once := TurnLayer(faces, s, 1, 0, true, false);
    TurnLayerShifts(once, s, 1, 0, false, false);
    LeftThenRight(faces, s, r, w);
  }

  /** So a cube whose face 0 has two different stickers at the ends of its
      last row is not restored. */
  lemma FrontLayerTurnBack(faces: Faces, s: int)
    requires Shaped(faces, s) && 2 <= s
    requires At(faces, s, Cell(0, s - 1, 0)) != At(faces, s, Cell(0, s - 1, s - 1))
    ensures TurnLayer(TurnLayer(faces, s, 1, 0, true, false), s, 1, 0, false, false) != faces
  {
    FrontLayerNotUndone(faces, s);
  }

  /** The layer turn with the list written back along the path it was read
      from: a turn of the read strip by `LayerShift`. */
  function FixedTurnLayer(faces: Faces, s: int, f: int, L: int, clockwise: bool, twice: bool): (r: Faces)
    requires Shaped(faces, s) && IsLayer(s, f, L)
    ensures Shaped(r, s)
  {
    Scatter(faces, s, ReadStrip(s, f, L), TurnList(Gather(faces, s, ReadStrip(s, f, L)), LayerClockwise(f, clockwise), twice, s))
  }

  /** It moves the same stickers as the source wherever the source reads
      and writes alike. */
  lemma FixedTurnLayerAgrees(faces: Faces, s: int, f: int, L: int, clockwise: bool, twice: bool)
    requires Shaped(faces, s) && IsLayer(s, f, L) && f % 3 != 1
    ensures FixedTurnLayer(faces, s, f, L, clockwise, twice) == TurnLayer(faces, s, f, L, clockwise, twice)
  {
    PartnersAxis(f);
    assert WriteSegments(s, f, L) == ReadSegments(s, f, L) by {
      forall k | 0 <= k < 4
        ensures WriteSegments(s, f, L)[k] == ReadSegments(s, f, L)[k]
      {
        SegmentOrder(s, f, L, Partners(f)[k]);
      }
    }
  }

  /** With the fix, every layer turn is undone by the opposite turn. */
  lemma FixedTurnLayerInverse(faces: Faces, s: int, f: int, L: int, clockwise: bool, twice: bool)
    requires Shaped(faces, s) && IsLayer(s, f, L)
    ensures FixedTurnLayer(FixedTurnLayer(faces, s, f, L, clockwise, twice), s, f, L, !clockwise, twice) == faces
  {
    var r := ReadStrip(s, f, L);
    var a, b := LayerShift(s, f, clockwise, twice), LayerShift(s, f, !clockwise, twice);
    TimesIsMul(Quarters(LayerClockwise(f, clockwise), twice), s);
    TimesIsMul(Quarters(LayerClockwise(f, !clockwise), twice), s);
    FixedTurnLayerShifts(faces, s, f, L, clockwise, twice);
    FixedTurnLayerShifts(FixedTurnLayer(faces, s, f, L, clockwise, twice), s, f, L, !clockwise, twice);
    TurnPathCompose(faces, s, r, a, b, 0);
    TurnPathWhole(faces, s, r, 0);
  }

  /** The fixed turn is a turn of the read strip by `LayerShift`. */
  lemma FixedTurnLayerShifts(faces: Faces, s: int, f: int, L: int, clockwise: bool, twice: bool)
    requires Shaped(faces, s) && IsLayer(s, f, L)
    ensures FixedTurnLayer(faces, s, f, L, clockwise, twice) == TurnPath(faces, s, ReadStrip(s, f, L), LayerShift(s, f, clockwise, twice))
  {
    TurnListRotates(Gather(faces, s, ReadStrip(s, f, L)), LayerClockwise(f, clockwise), twice, s);
  }

  /** The fixed turn keeps the cube's stickers. */
  lemma FixedTurnLayerStickers(faces: Faces, s: int, f: int, L: int, clockwise: bool, twice: bool)
    requires Shaped(faces, s) && IsLayer(s, f, L)
    ensures Stickers(FixedTurnLayer(faces, s, f, L, clockwise, twice)) == Stickers(faces)
  {
    FixedTurnLayerShifts(faces, s, f, L, clockwise, twice);
    TurnPathStickers(faces, s, ReadStrip(s, f, L), LayerShift(s, f, clockwise, twice));
  }
}
