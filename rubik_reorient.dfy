/** `rotateCube` of `RubikClass.js` (lines 332-433): turning the whole cube
    about an axis. Two faces on the axis turn in place and the other four
    change slots, some of them turned while they move. The closed form
    `Reoriented` says where each face ends up and how far it is turned. */
module RubikReorient {
  import opened Wrappers
  import opened CubeCells
  import opened CubeTurns
  import opened CubeFaces
  import opened CubeSpin

  datatype Axis = X | Y | Z

  /** A parsed `rotateCube` input: the axis and the direction suffix. */
  datatype Reorientation = Reorientation(axis: Axis, clockwise: bool, twice: bool)

  /** The input pattern `^([xyz])(['2]?)`: the axis letter, then an
      optional `'` (counter-clockwise) or `2` (half turn); whatever follows
      is ignored. */
  function ParseReorientation(input: string): (r: Option<Reorientation>)
    ensures r.Some? ==> |input| > 0 && input[0] in "xyz" && (r.value.twice ==> r.value.clockwise)
  {
    if |input| == 0 || input[0] !in "xyz" then None
    else
      var axis := if input[0] == 'x' then X else if input[0] == 'y' then Y else Z;
      var direction := if |input| > 1 then input[1] else ' ';
      Some(Reorientation(axis, direction != '\'', direction == '2'))
  }

  /** How a reorientation is written. */
  function ReorientationText(r: Reorientation): string
  {
    var letter := match r.axis case X => 'x' case Y => 'y' case Z => 'z';
    [letter] + (if r.twice then "2" else if r.clockwise then "" else "'")
  }

  /** Reading back what was written gives the same reorientation, whatever
      follows as long as it does not look like a direction. */
  lemma ParseReorientationText(r: Reorientation, rest: string)
    requires r.twice ==> r.clockwise
    requires |rest| > 0 ==> rest[0] != '\'' && rest[0] != '2'
    ensures ParseReorientation(ReorientationText(r) + rest) == Some(r)
  {
    var input := ReorientationText(r) + rest;
    assert input[0] == ReorientationText(r)[0];
    if r.twice || !r.clockwise {
      assert input[1] == ReorientationText(r)[1];
    } else if |input| > 1 {
      assert input[1] == rest[0];
    }
  }

  /** Anything that does not start with `x`, `y` or `z` is refused. */
  lemma ParseReorientationRefuses(input: string)
    ensures ParseReorientation(input).None? <==> |input| == 0 || input[0] !in "xyz"
  {
  }

  /** Face `i` of the cube. */
  function Slot(faces: Faces, s: int, i: int): (g: seq<seq<Sticker>>)
    requires Shaped(faces, s) && 0 <= i < 6
    ensures Square(g, s) && g == faces[i]
  {
    faces[i]
  }

  /** Face `i` of the cube, spun by `m` quarter turns. */
  function Spun(faces: Faces, s: int, i: int, m: int): (r: seq<seq<Sticker>>)
    requires Shaped(faces, s) && 0 <= i < 6
    ensures Square(r, s)
  {
    Spin(Slot(faces, s, i), s, m)
  }

  /** The cube with these six faces, in slot order. */
  function Six(g0: seq<seq<Sticker>>, g1: seq<seq<Sticker>>, g2: seq<seq<Sticker>>,
               g3: seq<seq<Sticker>>, g4: seq<seq<Sticker>>, g5: seq<seq<Sticker>>, s: int): (faces: Faces)
    requires Square(g0, s) && Square(g1, s) && Square(g2, s) && Square(g3, s) && Square(g4, s) && Square(g5, s)
    ensures Shaped(faces, s)
  {
    [g0, g1, g2, g3, g4, g5]
  }

  /** The cube after `rotateCube`: the two faces on the axis turn in place
      (the far one the other way), the four around it move one slot on (two
      for a half turn), and a face that passes the back of the cube or
      crosses over the top and bottom is turned as it goes. */
  function Reoriented(faces: Faces, s: int, r: Reorientation): (g: Faces)
    requires Shaped(faces, s)
    ensures Shaped(g, s)
  {
    var q := Quarters(r.clockwise, r.twice);
    var F := faces;
    match r.axis
    case X =>
      if r.twice then Six(Slot(F, s, 3), Spun(F, s, 4, 2), Spun(F, s, 2, -q), Slot(F, s, 0), Spun(F, s, 1, 2), Spun(F, s, 5, q), s)
      else if r.clockwise then Six(Slot(F, s, 1), Slot(F, s, 3), Spun(F, s, 2, -1), Spun(F, s, 4, 2), Spun(F, s, 0, 2), Spun(F, s, 5, 1), s)
      else Six(Spun(F, s, 4, 2), Slot(F, s, 0), Spun(F, s, 2, 1), Slot(F, s, 1), Spun(F, s, 3, 2), Spun(F, s, 5, -1), s)
    case Y =>
      if r.twice then Six(Spun(F, s, 0, q), Slot(F, s, 4), Slot(F, s, 5), Spun(F, s, 3, -q), Slot(F, s, 1), Slot(F, s, 2), s)
      else if r.clockwise then Six(Spun(F, s, 0, 1), Slot(F, s, 5), Slot(F, s, 1), Spun(F, s, 3, -1), Slot(F, s, 2), Slot(F, s, 4), s)
      else Six(Spun(F, s, 0, -1), Slot(F, s, 2), Slot(F, s, 4), Spun(F, s, 3, 1), Slot(F, s, 5), Slot(F, s, 1), s)
    case Z =>
      if r.twice then Six(Spun(F, s, 3, 2), Spun(F, s, 1, q), Spun(F, s, 5, 2), Spun(F, s, 0, 2), Spun(F, s, 4, -q), Spun(F, s, 2, 2), s)
      else if r.clockwise then Six(Spun(F, s, 2, 1), Spun(F, s, 1, 1), Spun(F, s, 3, 1), Spun(F, s, 5, 1), Spun(F, s, 4, -1), Spun(F, s, 0, 1), s)
      else Six(Spun(F, s, 5, -1), Spun(F, s, 1, -1), Spun(F, s, 0, -1), Spun(F, s, 2, -1), Spun(F, s, 4, 1), Spun(F, s, 3, -1), s)
  }

  /** Spinning by `a` and then by `b` restores a grid when `a + b` is a
      whole number of turns. */
  lemma SpinBack(grid: seq<seq<Sticker>>, s: int, a: int, b: int)
    requires Square(grid, s) && (a + b) % 4 == 0
    ensures Spin(Spin(grid, s, a), s, b) == grid
  {
    SpinCompose(grid, s, a, b);
    SpinWhole(grid, s, a + b);
  }

  /** A quarter turn of the cube about an axis and the opposite quarter
      turn undo each other, in either order. */
  lemma ReorientedInverse(faces: Faces, s: int, axis: Axis, clockwise: bool)
    requires Shaped(faces, s)
    ensures Reoriented(Reoriented(faces, s, Reorientation(axis, clockwise, false)), s, Reorientation(axis, !clockwise, false)) == faces
  {
    match axis
    case X => TurnXBack(faces, s, clockwise);
    case Y => TurnYBack(faces, s, clockwise);
    case Z => TurnZBack(faces, s, clockwise);
  }

  lemma TurnXBack(F: Faces, s: int, clockwise: bool)
    requires Shaped(F, s)
    ensures Reoriented(Reoriented(F, s, Reorientation(X, clockwise, false)), s, Reorientation(X, !clockwise, false)) == F
  {
    var G := Reoriented(F, s, Reorientation(X, clockwise, false));
    if clockwise {
      SpinBack(F[2], s, -1, 1);
      SpinBack(F[4], s, 2, 2);
      SpinBack(F[0], s, 2, 2);
      SpinBack(F[5], s, 1, -1);
    } else {
      SpinBack(F[4], s, 2, 2);
      SpinBack(F[2], s, 1, -1);
      SpinBack(F[3], s, 2, 2);
      SpinBack(F[5], s, -1, 1);
    }
  }

  lemma TurnYBack(F: Faces, s: int, clockwise: bool)
    requires Shaped(F, s)
    ensures Reoriented(Reoriented(F, s, Reorientation(Y, clockwise, false)), s, Reorientation(Y, !clockwise, false)) == F
  {
    var m := if clockwise then 1 else -1;
    SpinBack(F[0], s, m, -m);
    SpinBack(F[3], s, -m, m);
  }

  lemma TurnZBack(F: Faces, s: int, clockwise: bool)
    requires Shaped(F, s)
    ensures Reoriented(Reoriented(F, s, Reorientation(Z, clockwise, false)), s, Reorientation(Z, !clockwise, false)) == F
  {
    var m := if clockwise then 1 else -1;
    SpinBack(F[0], s, m, -m);
    SpinBack(F[1], s, m, -m);
    SpinBack(F[2], s, m, -m);
    SpinBack(F[3], s, m, -m);
    SpinBack(F[4], s, -m, m);
    SpinBack(F[5], s, m, -m);
  }

  /** A half turn of the cube is two quarter turns. */
  lemma ReorientedTwice(faces: Faces, s: int, axis: Axis)
    requires Shaped(faces, s)
    ensures Reoriented(faces, s, Reorientation(axis, true, true))
         == Reoriented(Reoriented(faces, s, Reorientation(axis, true, false)), s, Reorientation(axis, true, false))
  {
    var F := faces;
    forall i | 0 <= i < 6
      ensures Square(F[i], s)
    {
    }
    forall i, a, b | 0 <= i < 6 && ((a == 1 && b == 1) || (a == -1 && b == -1) || (a == 2 && b == 2))
      ensures Spin(Spin(F[i], s, a), s, b) == Spin(F[i], s, a + b)
    {
      SpinCompose(F[i], s, a, b);
    }
    forall i | 0 <= i < 6
      ensures Spin(F[i], s, 4) == F[i]
    {
      SpinWhole(F[i], s, 4);
    }
  }

  /** Turning the whole cube keeps its stickers. */
  lemma ReorientedStickers(faces: Faces, s: int, r: Reorientation)
    requires Shaped(faces, s)
    ensures Stickers(Reoriented(faces, s, r)) == Stickers(faces)
  {
    var F, G := faces, Reoriented(faces, s, r);
    SpunStickers(F, s);
    StickersSix(F);
    StickersSix(G);
    forall x
      ensures Stickers(G)[x] == Stickers(F)[x]
    {
      match r.axis
      case X => SixCountsX(F, G, s, r, x);
      case Y => SixCountsY(F, G, s, r, x);
      case Z => SixCountsZ(F, G, s, r, x);
    }
    SameCounts(Stickers(G), Stickers(F));
  }

  lemma SameCounts(a: multiset<Sticker>, b: multiset<Sticker>)
    requires forall x :: a[x] == b[x]
    ensures a == b
  {
  }

  lemma SpunStickers(F: Faces, s: int)
    requires Shaped(F, s)
    ensures forall i, m :: 0 <= i < 6 ==> FaceStickers(Spun(F, s, i, m)) == FaceStickers(F[i])
  {
    forall i, m | 0 <= i < 6
      ensures FaceStickers(Spun(F, s, i, m)) == FaceStickers(F[i])
    {
      SpinStickers(F[i], s, m);
    }
  }

  /** Each face of the turned cube has the stickers of the face that
      moved there, so every sticker is counted as often as before. */
  lemma SixCountsX(F: Faces, G: Faces, s: int, r: Reorientation, x: Sticker)
    requires Shaped(F, s) && r.axis == X && G == Reoriented(F, s, r)
    requires forall i, m :: 0 <= i < 6 ==> FaceStickers(Spun(F, s, i, m)) == FaceStickers(F[i])
    ensures FaceStickers(G[0])[x] + FaceStickers(G[1])[x] + FaceStickers(G[2])[x]
          + FaceStickers(G[3])[x] + FaceStickers(G[4])[x] + FaceStickers(G[5])[x]
         == FaceStickers(F[0])[x] + FaceStickers(F[1])[x] + FaceStickers(F[2])[x]
          + FaceStickers(F[3])[x] + FaceStickers(F[4])[x] + FaceStickers(F[5])[x]
  {
  }

  lemma SixCountsY(F: Faces, G: Faces, s: int, r: Reorientation, x: Sticker)
    requires Shaped(F, s) && r.axis == Y && G == Reoriented(F, s, r)
    requires forall i, m :: 0 <= i < 6 ==> FaceStickers(Spun(F, s, i, m)) == FaceStickers(F[i])
    ensures FaceStickers(G[0])[x] + FaceStickers(G[1])[x] + FaceStickers(G[2])[x]
          + FaceStickers(G[3])[x] + FaceStickers(G[4])[x] + FaceStickers(G[5])[x]
         == FaceStickers(F[0])[x] + FaceStickers(F[1])[x] + FaceStickers(F[2])[x]
          + FaceStickers(F[3])[x] + FaceStickers(F[4])[x] + FaceStickers(F[5])[x]
  {
  }

  lemma SixCountsZ(F: Faces, G: Faces, s: int, r: Reorientation, x: Sticker)
    requires Shaped(F, s) && r.axis == Z && G == Reoriented(F, s, r)
    requires forall i, m :: 0 <= i < 6 ==> FaceStickers(Spun(F, s, i, m)) == FaceStickers(F[i])
    ensures FaceStickers(G[0])[x] + FaceStickers(G[1])[x] + FaceStickers(G[2])[x]
          + FaceStickers(G[3])[x] + FaceStickers(G[4])[x] + FaceStickers(G[5])[x]
         == FaceStickers(F[0])[x] + FaceStickers(F[1])[x] + FaceStickers(F[2])[x]
          + FaceStickers(F[3])[x] + FaceStickers(F[4])[x] + FaceStickers(F[5])[x]
  {
  }

}
