/** The `RubikCube` class of `RubikClass.js`: six faces of `size` by `size`
    stickers, changed in place by face turns, layer turns, moves and whole
    cube turns. Each method is proved against the functions that state what
    the turn does to the cube. */
module RubikClass {
  import opened Wrappers
  import opened CubeCells
  import opened CubeTurns
  import opened CubeFaces
  import opened CubeSpin
  import opened CubePathLoops
  import opened CubeRingLoops
  import opened RubikMoves
  import opened RubikCommands
  import opened RubikReorient

  /** Every face shows one colour: every sticker equals the face's top-left
      sticker. */
  ghost predicate Solved(faces: Faces, s: int)
    requires Shaped(faces, s)
  {
    forall f, row, col :: 0 <= f < 6 && 0 <= row < s && 0 <= col < s ==> faces[f][row][col] == faces[f][0][0]
  }

  /** A face turn keeps a solved cube solved. */
  lemma SolvedTurnFace(faces: Faces, s: int, f: int, m: int)
    requires Shaped(faces, s) && 0 <= f < 6 && Solved(faces, s)
    ensures Solved(TurnFace(faces, s, f, m), s)
  {
    var t := TurnFace(faces, s, f, m);
    TurnFaceOnlyFace(faces, s, f, m);
    if s > 0 {
      TurnFaceCell(faces, s, m, Cell(f, 0, 0));
      forall row, col | 0 <= row < s && 0 <= col < s
        ensures t[f][row][col] == t[f][0][0]
      {
        TurnFaceCell(faces, s, m, Cell(f, row, col));
      }
    }
  }

  // ---------------------------------------------------------------------
  // Steps of the loops

  /** The first `i` rings of face `f`, each turned by its steps. */
  function RingsTurned(faces: Faces, s: int, f: int, m: int, i: int): (r: Faces)
    requires Shaped(faces, s) && 0 <= f < 6 && 0 <= i <= RingCount(s)
    ensures Shaped(r, s)
  {
    RingsSeparate(s, f);
    TurnPaths(faces, s, Rings(s, f)[..i], RingSteps(s, m)[..i])
  }

  /** One more ring turned. */
  lemma RingsTurnedStep(faces: Faces, s: int, f: int, m: int, i: int)
    requires Shaped(faces, s) && 0 <= f < 6 && 0 <= i && 2 * i < s
    ensures RingsTurned(faces, s, f, m, i + 1) == TurnPath(RingsTurned(faces, s, f, m, i), s, Ring(s, f, i), Steps(s, i, m))
  {
    RingsSeparate(s, f);
    var ps, ms := Rings(s, f), RingSteps(s, m);
    assert ps[..i + 1][..i] == ps[..i] && ms[..i + 1][..i] == ms[..i];
  }

  /** All rings turned is the face turn. */
  lemma RingsTurnedAll(faces: Faces, s: int, f: int, m: int)
    requires Shaped(faces, s) && 0 <= f < 6
    ensures RingsTurned(faces, s, f, m, RingCount(s)) == TurnFace(faces, s, f, m)
  {
    RingsSeparate(s, f);
    assert Rings(s, f)[..RingCount(s)] == Rings(s, f);
    assert RingSteps(s, m)[..RingCount(s)] == RingSteps(s, m);
  }

  /** Turning a ring's list as `rotateFace` does moves it `Steps` places. */
  lemma RingListTurn(list: seq<Sticker>, s: int, i: int, clockwise: bool, twice: bool)
    requires 0 <= i && 2 * i < s && |list| == RingLength(s, i)
    ensures TurnList(list, clockwise, twice, s - 1 - 2 * i) == RotRight(list, Steps(s, i, Quarters(clockwise, twice)))
  {
    TurnListRotates(list, clockwise, twice, s - 1 - 2 * i);
  }

  /** Writing back a ring's list turned as `rotateFace` turns it is the
      turn of that ring. */
  lemma TurnedRing(faces: Faces, s: int, f: int, i: int, clockwise: bool, twice: bool, n: nat,
                   read: seq<Sticker>, list: seq<Sticker>)
    requires Shaped(faces, s) && IsRing(s, f, i) && read == Gather(faces, s, Ring(s, f, i))
    requires n == s - 1 - 2 * i && list == TurnList(read, clockwise, twice, n)
    ensures |list| == RingLength(s, i)
    ensures Scatter(faces, s, Ring(s, f, i), list) == TurnPath(faces, s, Ring(s, f, i), Steps(s, i, Quarters(clockwise, twice)))
  {
    assert |read| == RingLength(s, i);
    TurnListRotates(read, clockwise, twice, n);
    assert Steps(s, i, Quarters(clockwise, twice)) == Times(Quarters(clockwise, twice), n);
  }

  /** The body of `rotateFace`'s loop: ring `i` is read into a list, the
      list is turned by the ring's side length, once or twice, and written
      back. */
  method TurnRing(faces: Faces, s: int, f: int, i: int, clockwise: bool, twice: bool) returns (r: Faces)
    requires Shaped(faces, s) && 0 <= f < 6 && 0 <= i && 2 * i < s
    ensures r == TurnPath(faces, s, Ring(s, f, i), Steps(s, i, Quarters(clockwise, twice)))
  {
    var read := ReadRing(faces, s, f, i);
    var n := s - 1 - 2 * i;
    var list := read;
    if twice {
      list := RotateList(list, clockwise, n);
    }
    list := RotateList(list, clockwise, n);
    assert list == TurnList(read, clockwise, twice, n);
    TurnedRing(faces, s, f, i, clockwise, twice, n, read, list);
    r := WriteRing(faces, s, f, i, list);
  }

  /** The segments of a layer turn: four, each of `s` cells in the cube. */
  predicate Segments(s: int, segs: seq<seq<Cell>>)
  {
    |segs| == 4 && forall i :: 0 <= i < 4 ==> |segs[i]| == s && AllInCube(s, segs[i])
  }

  lemma LayerSegments(s: int, f: int, L: int)
    requires IsLayer(s, f, L)
    ensures Segments(s, ReadSegments(s, f, L)) && Segments(s, WriteSegments(s, f, L))
  {
    PartnersAxis(f);
  }

  /** The first `k` segments laid end to end. */
  function Prefix(s: int, segs: seq<seq<Cell>>, k: int): (p: seq<Cell>)
    requires Segments(s, segs) && 0 <= k <= 4
    ensures |p| == k * s && AllInCube(s, p)
  {
    PrefixFacts(s, segs, k);
    Flatten(segs[..k])
  }

  lemma {:induction false} PrefixFacts(s: int, segs: seq<seq<Cell>>, k: int)
    requires Segments(s, segs) && 0 <= k <= 4
    ensures |Flatten(segs[..k])| == k * s && AllInCube(s, Flatten(segs[..k]))
  {
    if k > 0 {
      PrefixFacts(s, segs, k - 1);
      FlattenSnoc(segs, k - 1);
      AllInCubeAppend(s, Flatten(segs[..k - 1]), segs[k - 1]);
    }
  }

  lemma PrefixStep(s: int, segs: seq<seq<Cell>>, k: int)
    requires Segments(s, segs) && 0 <= k < 4
    ensures Prefix(s, segs, k + 1) == Prefix(s, segs, k) + segs[k]
  {
    FlattenSnoc(segs, k);
  }

  lemma PrefixAll(s: int, segs: seq<seq<Cell>>)
    requires Segments(s, segs)
    ensures Prefix(s, segs, 4) == Flatten(segs)
  {
    assert segs[..4] == segs;
  }

  /** Reading one more segment reads one more part of the list. */
  lemma ReadStep(faces: Faces, s: int, segs: seq<seq<Cell>>, k: int)
    requires Shaped(faces, s) && Segments(s, segs) && 0 <= k < 4
    ensures Gather(faces, s, Prefix(s, segs, k + 1)) == Gather(faces, s, Prefix(s, segs, k)) + Gather(faces, s, segs[k])
  {
    PrefixStep(s, segs, k);
    GatherAppend(faces, s, Prefix(s, segs, k), segs[k]);
  }

  lemma Scale(k: int, s: int)
    requires 0 <= k <= 4 && 0 <= s
    ensures 0 <= k * s <= 4 * s && (k + 1) * s == k * s + s
  {
  }

  /** Writing one more segment writes one more part of the list; `a` is
      where the segment's part starts. */
  lemma WriteStep(faces: Faces, s: int, segs: seq<seq<Cell>>, v: seq<Sticker>, k: int, a: int)
    requires Shaped(faces, s) && Segments(s, segs) && 0 <= k < 4 && |v| == 4 * s && a == k * s
    ensures 0 <= a && a + s <= |v|
    ensures Scatter(faces, s, Prefix(s, segs, k + 1), v[..a + s])
         == Scatter(Scatter(faces, s, Prefix(s, segs, k), v[..a]), s, segs[k], v[a..][..s])
  {
    Scale(k, s);
    Scale(k + 1, s);
    PrefixStep(s, segs, k);
    assert v[..a + s] == v[..a] + v[a..][..s];
    ScatterAppend(faces, s, Prefix(s, segs, k), v[..a], segs[k], v[a..][..s]);
  }

  /** One round of a segment-writing loop: after the `k`-th segment is
      written from the rest of the list, the faces are the write along the
      first `k + 1` segments and the rest has moved on by one segment. */
  lemma WriteLoopStep(faces: Faces, s: int, segs: seq<seq<Cell>>, v: seq<Sticker>, k: int, a: int,
                      r: Faces, rest: seq<Sticker>, next: Faces)
    requires Shaped(faces, s) && Segments(s, segs) && 0 <= k < 4 && |v| == 4 * s && a == k * s
    requires r == Scatter(faces, s, Prefix(s, segs, k), v[..a]) && rest == v[a..]
    requires |rest| >= s && next == Scatter(r, s, segs[k], rest[..s])
    ensures a + s <= |v| && rest[s..] == v[a + s..]
    ensures next == Scatter(faces, s, Prefix(s, segs, k + 1), v[..a + s])
  {
    WriteStep(faces, s, segs, v, k, a);
  }

  /** The write loop of a layer turn, over the partners' segments in
      turn: each takes the next `s` stickers of the list (`shift`). */
  method WriteSegmentsLoop(faces: Faces, s: int, segs: seq<seq<Cell>>, list: seq<Sticker>) returns (r: Faces)
    requires Shaped(faces, s) && Segments(s, segs) && |list| == 4 * s
    ensures |Flatten(segs)| == |list| && AllInCube(s, Flatten(segs))
    ensures r == Scatter(faces, s, Flatten(segs), list)
  {
    r := faces;
    var rest := list;
    var k := 0;
    ghost var pos := 0;
    while k < 4
      invariant 0 <= k <= 4 && pos == k * s && 0 <= pos <= |list|
      invariant Shaped(r, s)
      invariant rest == list[pos..]
      invariant r == Scatter(faces, s, Prefix(s, segs, k), list[..pos])
    {
      ghost var r0, rest0 := r, rest;
      r, rest := WritePath(r, s, segs[k], rest);
      WriteLoopStep(faces, s, segs, list, k, pos, r0, rest0, r);
      k, pos := k + 1, pos + s;
    }
    PrefixAll(s, segs);
    assert list[..pos] == list;
  }

  /** The loop at the start of `rotateLayer`: the faces off `f`'s axis,
      in increasing order. */
  method PartnerFaces(f: int) returns (partners: seq<int>)
    requires 0 <= f < 6
    ensures partners == Partners(f)
    ensures forall p :: p in partners <==> 0 <= p < 6 && p % 3 != f % 3
  {
    partners := [];
    var p := 0;
    while p < 6
      invariant 0 <= p <= 6 && partners == PartnersBelow(f, p)
    {
      if p % 3 != f % 3 {
        partners := partners + [p];
      }
      p := p + 1;
    }
    PartnersAxis(f);
  }

  // ---------------------------------------------------------------------
  // The class

  class RubikCube {
    /** `_faces`: U, F, L, D, B, R, each a grid of rows. */
    var faces: Faces
    /** `_size`: the length of the first face. */
    const size: int

    ghost predicate Valid()
      reads this
    {
      Shaped(faces, size)
    }

    /** The cube from its six faces, all `size` by `size`. */
    constructor (face0: seq<seq<Sticker>>, face1: seq<seq<Sticker>>, face2: seq<seq<Sticker>>,
                 face3: seq<seq<Sticker>>, face4: seq<seq<Sticker>>, face5: seq<seq<Sticker>>)
      requires Square(face0, |face0|) && Square(face1, |face0|) && Square(face2, |face0|)
      requires Square(face3, |face0|) && Square(face4, |face0|) && Square(face5, |face0|)
      ensures Valid() && size == |face0| && faces == [face0, face1, face2, face3, face4, face5]
    {
      faces := Six(face0, face1, face2, face3, face4, face5, |face0|);
      size := |face0|;
    }

    /** `checkIfSolved`: every sticker of each face is compared with the
        face's first sticker. */
    method CheckIfSolved() returns (solved: bool)
      requires Valid()
      ensures solved <==> Solved(faces, size)
    {
      var i := 0;
      while i < 6
        invariant 0 <= i <= 6
        invariant forall f, row, col :: 0 <= f < i && 0 <= row < size && 0 <= col < size ==> faces[f][row][col] == faces[f][0][0]
      {
        var color: Sticker := "";
        var j := 0;
        while j < size
          invariant 0 <= j <= size
          invariant j > 0 ==> color == faces[i][0][0]
          invariant forall row, col :: 0 <= row < j && 0 <= col < size ==> faces[i][row][col] == faces[i][0][0]
        {
          var k := 0;
          while k < size
            invariant 0 <= k <= size
            invariant j > 0 || k > 0 ==> color == faces[i][0][0]
            invariant forall col :: 0 <= col < k ==> faces[i][j][col] == faces[i][0][0]
          {
            if j == 0 && k == 0 {
              color := faces[i][j][k];
            } else if faces[i][j][k] != color {
              return false;
            }
            k := k + 1;
          }
          j := j + 1;
        }
        i := i + 1;
      }
      return true;
    }

    /** `rotateFace`: every ring of face `f`, from the outside in, is read
        into a list, the list is turned by the ring's side length, and the
        list is written back. */
    method RotateFace(f: int, clockwise: bool, twice: bool)
      requires Valid() && 0 <= f < 6
      modifies this
      ensures Valid()
      ensures faces == TurnFace(old(faces), size, f, Quarters(clockwise, twice))
    {
      ghost var start := faces;
      ghost var m := Quarters(clockwise, twice);
      var i := 0;
      while 2 * i < size
        invariant 0 <= i <= RingCount(size)
        invariant Shaped(faces, size)
        invariant faces == RingsTurned(start, size, f, m, i)
      {
        RingsTurnedStep(start, size, f, m, i);
        faces := TurnRing(faces, size, f, i, clockwise, twice);
        i := i + 1;
      }
      RingsTurnedAll(start, size, f, m);
    }

    /** `rotateFace` seen from the whole cube: face `f`'s grid is spun and
        the other five faces stay. */
    method SpinFace(f: int, clockwise: bool, twice: bool)
      requires Valid() && 0 <= f < 6
      modifies this
      ensures Valid()
      ensures faces == old(faces)[f := Spin(old(faces)[f], size, Quarters(clockwise, twice))]
    {
      ghost var start := faces;
      RotateFace(f, clockwise, twice);
      SpinSlot(start, size, f, Quarters(clockwise, twice));
    }

    /** `rotateLayer`: the four partner faces' segments of layer `layer`
        are read into one list, the list is turned by `size` places per
        quarter turn, and the list is written back along the write
        segments. */
    method RotateLayer(f: int, layer: int, clockwise: bool, twice: bool)
      requires Valid() && 0 <= f < 6 && 1 <= layer <= size
      modifies this
      ensures Valid()
      ensures faces == TurnLayer(old(faces), size, f, layer - 1, clockwise, twice)
    {
      var partners := PartnerFaces(f);
      var L := layer - 1;
      var list := ReadLayer(f, L, partners);
      var direction := LayerClockwise(f, clockwise);
      if twice {
        list := RotateList(list, direction, size);
      }
      list := RotateList(list, direction, size);
      WriteLayer(f, L, partners, list);
    }

    /** The first half of `rotateLayer`: the partners' read segments, one
        after the other, into one list. */
    method ReadLayer(f: int, L: int, partners: seq<int>) returns (list: seq<Sticker>)
      requires Valid() && IsLayer(size, f, L) && partners == Partners(f)
      ensures list == Gather(faces, size, ReadStrip(size, f, L))
    {
      ghost var rs := ReadSegments(size, f, L);
      LayerSegments(size, f, L);
      PartnersAxis(f);
      list := [];
      var k := 0;
      while k < |partners|
        invariant 0 <= k <= 4
        invariant list == Gather(faces, size, Prefix(size, rs, k))
      {
        ReadStep(faces, size, rs, k);
        list := ReadPath(faces, size, ReadSegment(size, f, L, partners[k]), list);
        k := k + 1;
      }
      PrefixAll(size, rs);
    }

    /** The second half of `rotateLayer`: the list written back along the
        partners' write segments, `size` stickers each. */
    method WriteLayer(f: int, L: int, partners: seq<int>, list: seq<Sticker>)
      requires Valid() && IsLayer(size, f, L) && partners == Partners(f) && |list| == 4 * size
      modifies this
      ensures Valid()
      ensures faces == Scatter(old(faces), size, WriteStrip(size, f, L), list)
    {
      LayerSegments(size, f, L);
      PartnersAxis(f);
      var segs := seq(4, k requires 0 <= k < 4 => WriteSegment(size, f, L, partners[k]));
      assert segs == WriteSegments(size, f, L);
      faces := WriteSegmentsLoop(faces, size, segs, list);
    }

    /** `rotateFaceLayer`: the face turns too when the outer layer moves. */
    method RotateFaceLayer(f: int, layer: int, clockwise: bool, twice: bool)
      requires Valid() && 0 <= f < 6 && 1 <= layer <= size
      modifies this
      ensures Valid()
      ensures faces == FaceLayerTurn(old(faces), size, f, layer, clockwise, twice)
    {
      if layer == 1 {
        RotateFace(f, clockwise, twice);
      }
      RotateLayer(f, layer, clockwise, twice);
    }

    /** `rotate`: parse the move, then turn one layer, or every layer up to
        the middle for a lower-case letter. A numbered layer that is not on
        the cube ("0U", "4F" on a 3-cube) makes `rotateLayer` index a row
        that does not exist: for U, F, D and B it throws before writing
        anything. For L and R it lengthens rows instead, which the model
        does not cover. */
    method Rotate(input: string) returns (outcome: Outcome)
      requires Valid()
      requires ParseCommand(input).Ok? ==> !LengthensRows(ParseCommand(input).value, size)
      modifies this
      ensures Valid()
      ensures ParseCommand(input).Err? ==> outcome == Fail("invalid") && faces == old(faces)
      ensures ParseCommand(input).Ok? && !Fits(ParseCommand(input).value, size) ==>
                outcome == Fail(NoRow) && faces == old(faces)
      ensures ParseCommand(input).Ok? && Fits(ParseCommand(input).value, size) ==>
                outcome == Pass && faces == Perform(old(faces), size, ParseCommand(input).value)
    {
      var parsed := ParseCommand(input);
      if parsed.Err? {
        return Fail(parsed.msg);
      }
      var command := parsed.value;
      if command.Wide? {
        RotateWide(command.face, command.clockwise, command.twice);
      } else if command.layer < 1 || command.layer > size {
        return Fail(NoRow);
      } else {
        RotateFaceLayer(command.face, command.layer, command.clockwise, command.twice);
      }
      return Pass;
    }

    /** The lower-case branch of `rotate`: layers 1, 2, ... while the layer
        is at most half the size. */
    method RotateWide(f: int, clockwise: bool, twice: bool)
      requires Valid() && 0 <= f < 6
      modifies this
      ensures Valid()
      ensures faces == WideTurn(old(faces), size, f, size / 2, clockwise, twice)
    {
      ghost var start := faces;
      var i := 1;
      while 2 * i <= size
        invariant 1 <= i && 2 * (i - 1) <= size
        invariant Shaped(faces, size)
        invariant faces == WideTurn(start, size, f, i - 1, clockwise, twice)
      {
        RotateFaceLayer(f, i, clockwise, twice);
        i := i + 1;
      }
      assert i - 1 == size / 2;
    }

    /** `_faces[i] = grid` followed by `rotateFace(i, clockwise, twice)`. */
    method PlaceSpun(i: int, grid: seq<seq<Sticker>>, clockwise: bool, twice: bool)
      requires Valid() && 0 <= i < 6 && Square(grid, size)
      modifies this
      ensures Valid()
      ensures faces == old(faces)[i := Spin(grid, size, Quarters(clockwise, twice))]
    {
      faces := faces[i := grid];
      SpinFace(i, clockwise, twice);
    }

    /** `rotateCube`: parse the axis and direction, then turn the cube. */
    method RotateCube(input: string) returns (outcome: Outcome)
      requires Valid()
      modifies this
      ensures Valid()
      ensures ParseReorientation(input).None? ==> outcome == Fail("invalid rotation") && faces == old(faces)
      ensures ParseReorientation(input).Some? ==> outcome == Pass && faces == Reoriented(old(faces), size, ParseReorientation(input).value)
    {
      var parsed := ParseReorientation(input);
      if parsed.None? {
        return Fail("invalid rotation");
      }
      var r := parsed.value;
      if r.axis == X {
        RotateX(r.clockwise, r.twice);
      } else if r.axis == Y {
        RotateY(r.clockwise, r.twice);
      } else {
        RotateZ(r.clockwise, r.twice);
      }
      return Pass;
    }

    /** The `x` branch of `rotateCube`. */
    method RotateX(clockwise: bool, twice: bool)
      requires Valid() && (twice ==> clockwise)
      modifies this
      ensures Valid()
      ensures faces == Reoriented(old(faces), size, Reorientation(X, clockwise, twice))
    {
      var k := faces;
      SpinFace(2, !clockwise, twice);
      SpinFace(5, clockwise, twice);
      if !twice {
        if !clockwise {
          PlaceSpun(0, k[4], true, true);
          faces := faces[1 := k[0]];
          faces := faces[3 := k[1]];
          PlaceSpun(4, k[3], true, true);
        } else {
          faces := faces[0 := k[1]];
          faces := faces[1 := k[3]];
          PlaceSpun(3, k[4], true, true);
          PlaceSpun(4, k[0], true, true);
        }
      } else {
        faces := faces[0 := k[3]];
        PlaceSpun(1, k[4], true, true);
        faces := faces[3 := k[0]];
        PlaceSpun(4, k[1], true, true);
      }
    }

    /** The `y` branch of `rotateCube`. */
    method RotateY(clockwise: bool, twice: bool)
      requires Valid() && (twice ==> clockwise)
      modifies this
      ensures Valid()
      ensures faces == Reoriented(old(faces), size, Reorientation(Y, clockwise, twice))
    {
      var k := faces;
      SpinFace(0, clockwise, twice);
      SpinFace(3, !clockwise, twice);
      if !twice {
        if clockwise {
          faces := faces[1 := k[5]];
          faces := faces[2 := k[1]];
          faces := faces[4 := k[2]];
          faces := faces[5 := k[4]];
        } else {
          faces := faces[1 := k[2]];
          faces := faces[2 := k[4]];
          faces := faces[4 := k[5]];
          faces := faces[5 := k[1]];
        }
      } else {
        faces := faces[1 := k[4]];
        faces := faces[2 := k[5]];
        faces := faces[4 := k[1]];
        faces := faces[5 := k[2]];
      }
    }

    /** The `z` branch of `rotateCube`. */
    method RotateZ(clockwise: bool, twice: bool)
      requires Valid() && (twice ==> clockwise)
      modifies this
      ensures Valid()
      ensures faces == Reoriented(old(faces), size, Reorientation(Z, clockwise, twice))
    {
      var k := faces;
      SpinFace(1, clockwise, twice);
      SpinFace(4, !clockwise, twice);
      if !twice {
        if !clockwise {
          PlaceSpun(0, k[5], false, false);
          PlaceSpun(2, k[0], false, false);
          PlaceSpun(3, k[2], false, false);
          PlaceSpun(5, k[3], false, false);
        } else {
          PlaceSpun(0, k[2], true, false);
          PlaceSpun(2, k[3], true, false);
          PlaceSpun(3, k[5], true, false);
          PlaceSpun(5, k[0], true, false);
        }
      } else {
        PlaceSpun(0, k[3], true, true);
        PlaceSpun(2, k[5], true, true);
        PlaceSpun(3, k[0], true, true);
        PlaceSpun(5, k[2], true, true);
      }
    }
  }
}
