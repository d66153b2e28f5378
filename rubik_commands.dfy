/** The move commands of `RubikClass.js`: `rotate(string)` (lines 87-132)
    parses a move such as `R`, `2R'`, `F2` or `r`, and `rotateFaceLayer`
    (lines 134-140) turns face `f` when the outer layer moves and then the
    layer itself. A lower-case letter turns every layer from the outside
    to the middle. */
module RubikCommands {
  import opened Wrappers
  import opened CubeCells
  import opened CubeTurns
  import opened CubeFaces
  import opened CubeSpin
  import opened CubePathLoops
  import opened RubikMoves

  // ---------------------------------------------------------------------
  // Parsing a move

  /** A parsed move: a numbered layer of a face (an upper-case letter with
      an optional layer number in front), or every layer from the outside
      to the middle (a lower-case letter). */
  datatype Command =
    | Layered(face: int, layer: int, clockwise: bool, twice: bool)
    | Wide(face: int, clockwise: bool, twice: bool)

  /** The face numbers of the `_layers` table: U, F, L, D, B, R. */
  function FaceNumber(letter: char): (f: int)
    ensures 0 <= f < 6
  {
    match letter
    case 'U' => 0 case 'F' => 1 case 'L' => 2 case 'D' => 3 case 'B' => 4 case _ => 5
  }

  function FaceLetter(f: int): (letter: char)
    ensures letter in "UFLDBR"
  {
    if f == 0 then 'U' else if f == 1 then 'F' else if f == 2 then 'L'
    else if f == 3 then 'D' else if f == 4 then 'B' else 'R'
  }

  /** `toUpperCase` on the six lower-case move letters. */
  function Upper(letter: char): char
  {
    match letter
    case 'u' => 'U' case 'f' => 'F' case 'l' => 'L' case 'd' => 'D' case 'b' => 'B' case _ => 'R'
  }

  function Lower(letter: char): char
  {
    match letter
    case 'U' => 'u' case 'F' => 'f' case 'L' => 'l' case 'D' => 'd' case 'B' => 'b' case _ => 'r'
  }

  predicate IsDigit(c: char)
  {
    '0' <= c <= '9'
  }

  /** How many digits the input starts with: what `[0-9]*` matches. */
  function DigitRun(input: string): (n: nat)
    ensures n <= |input|
    ensures forall k :: 0 <= k < n ==> IsDigit(input[k])
    ensures n < |input| ==> !IsDigit(input[n])
  {
    if |input| > 0 && IsDigit(input[0]) then 1 + DigitRun(input[1..]) else 0
  }

  /** `parseInt` of a string of decimal digits. */
  function DecimalValue(digits: string): (v: nat)
    requires forall k :: 0 <= k < |digits| ==> IsDigit(digits[k])
  {
    if |digits| == 0 then 0
    else
      var last := digits[|digits| - 1];
      assert IsDigit(last);
      DecimalValue(digits[..|digits| - 1]) * 10 + (last as int - '0' as int)
  }

  /** The digits of `n` in decimal, without leading zeros. */
  function Decimal(n: nat): (digits: string)
    ensures |digits| > 0 && forall k :: 0 <= k < |digits| ==> IsDigit(digits[k])
  {
    var last := ['0' + (n % 10) as char];
    if n < 10 then last else Decimal(n / 10) + last
  }

  /** Reading back the digits of `n` gives `n`. */
  lemma {:induction false} DecimalValueOf(n: nat)
    ensures DecimalValue(Decimal(n)) == n
  {
    var d := Decimal(n);
    if n >= 10 {
      assert d[..|d| - 1] == Decimal(n / 10);
      DecimalValueOf(n / 10);
    }
  }

  /** The direction suffix `['2]?` at `at`: `'` turns counter-clockwise,
      `2` turns twice, anything else leaves the default clockwise turn. */
  function Direction(input: string, at: nat): (bool, bool)
  {
    var d := if at < |input| then input[at] else ' ';
    (d != '\'', d == '2')
  }

  /** The pattern of `rotate`: `^(([0-9]*)([UFLDBR])|[ufldbr])(['2]?)`.
      No match is `throw "invalid"`; a missing layer number is layer 1. */
  function ParseCommand(input: string): (r: Result<Command>)
    ensures r.Err? ==> r.msg == "invalid"
    ensures r.Ok? && r.value.Layered? ==> 0 <= r.value.face < 6 && r.value.layer >= 0
    ensures r.Ok? && r.value.Wide? ==> 0 <= r.value.face < 6
    ensures r.Ok? && r.value.twice ==> r.value.clockwise
  {
    var n := DigitRun(input);
    if n < |input| && input[n] in "UFLDBR" then
      var layer := if n == 0 then 1 else DecimalValue(input[..n]);
      var (clockwise, twice) := Direction(input, n + 1);
      Ok(Layered(FaceNumber(input[n]), layer, clockwise, twice))
    else if n == 0 && |input| > 0 && input[0] in "ufldbr" then
      var (clockwise, twice) := Direction(input, 1);
      Ok(Wide(FaceNumber(Upper(input[0])), clockwise, twice))
    else Err("invalid")
  }

  /** How a move is written; layer 1 without its number. */
  function CommandText(c: Command): string
  {
    var suffix := if c.twice then "2" else if c.clockwise then "" else "'";
    match c
    case Layered(f, layer, _, _) =>
      (if layer == 1 || layer < 0 then "" else Decimal(layer)) + [FaceLetter(f)] + suffix
    case Wide(f, _, _) => [Lower(FaceLetter(f))] + suffix
  }

  /** A move that can be written. */
  predicate WellFormed(c: Command)
  {
    0 <= c.face < 6 && (c.twice ==> c.clockwise) && (c.Layered? ==> c.layer >= 0)
  }

  lemma DigitRunStops(digits: string, rest: string)
    requires forall k :: 0 <= k < |digits| ==> IsDigit(digits[k])
    requires |rest| > 0 && !IsDigit(rest[0])
    ensures DigitRun(digits + rest) == |digits|
  {
    if |digits| > 0 {
      assert (digits + rest)[1..] == digits[1..] + rest;
      DigitRunStops(digits[1..], rest);
    } else {
      assert digits + rest == rest;
    }
  }

  /** Reading back a written move gives the same move, whatever follows as
      long as it does not look like a direction. */
  lemma ParseCommandText(c: Command, rest: string)
    requires WellFormed(c)
    requires |rest| > 0 ==> rest[0] != '\'' && rest[0] != '2'
    ensures ParseCommand(CommandText(c) + rest) == Ok(c)
  {
    var suffix := if c.twice then "2" else if c.clockwise then "" else "'";
    var tail := suffix + rest;
    assert Direction(tail, 0) == (c.clockwise, c.twice) by {
      if c.twice || !c.clockwise {
        assert tail[0] == suffix[0];
      } else if 0 < |tail| {
        assert tail[0] == rest[0];
      }
    }
    if c.Layered? {
      var digits := if c.layer == 1 then "" else Decimal(c.layer);
      assert CommandText(c) + rest == digits + [FaceLetter(c.face)] + tail;
      ParseLayeredText(c, tail);
    } else {
      assert CommandText(c) + rest == [Lower(FaceLetter(c.face))] + tail;
      ParseWideText(c, tail);
    }
  }

  lemma ParseLayeredText(c: Command, tail: string)
    requires WellFormed(c) && c.Layered?
    requires Direction(tail, 0) == (c.clockwise, c.twice)
    ensures ParseCommand((if c.layer == 1 then "" else Decimal(c.layer)) + [FaceLetter(c.face)] + tail) == Ok(c)
  {
    var digits := if c.layer == 1 then "" else Decimal(c.layer);
    var letter := FaceLetter(c.face);
    var input := digits + [letter] + tail;
    var n := |digits|;
    assert DigitRun(input) == n && input[n] == letter by {
      assert input == digits + ([letter] + tail);
      DigitRunStops(digits, [letter] + tail);
    }
    assert (if n == 0 then 1 else DecimalValue(input[..n])) == c.layer by {
      assert input[..n] == digits;
      if c.layer != 1 {
        DecimalValueOf(c.layer);
      }
    }
    assert Direction(input, n + 1) == Direction(tail, 0) by {
      if n + 1 < |input| {
        assert input[n + 1] == tail[0];
      }
    }
    assert FaceNumber(letter) == c.face;
  }

  lemma ParseWideText(c: Command, tail: string)
    requires WellFormed(c) && c.Wide?
    requires Direction(tail, 0) == (c.clockwise, c.twice)
    ensures ParseCommand([Lower(FaceLetter(c.face))] + tail) == Ok(c)
  {
    var input := [Lower(FaceLetter(c.face))] + tail;
    assert DigitRun(input) == 0;
    assert FaceNumber(Upper(Lower(FaceLetter(c.face)))) == c.face;
    assert Direction(input, 1) == Direction(tail, 0) by {
      if 1 < |input| {
        assert input[1] == tail[0];
      }
    }
  }

  // ---------------------------------------------------------------------
  // What a move does

  /** `rotateFaceLayer(f, layer, clockwise, twice)`: the face itself turns
      when the outer layer moves, then the layer turns. */
  function FaceLayerTurn(faces: Faces, s: int, f: int, layer: int, clockwise: bool, twice: bool): (r: Faces)
    requires Shaped(faces, s) && 0 <= f < 6 && 1 <= layer <= s
    ensures Shaped(r, s)
  {
    TurnLayer(Outer(faces, s, f, layer, clockwise, twice), s, f, layer - 1, clockwise, twice)
  }

  /** The face turn that comes with a move of the outer layer. */
  function Outer(faces: Faces, s: int, f: int, layer: int, clockwise: bool, twice: bool): (r: Faces)
    requires Shaped(faces, s) && 0 <= f < 6
    ensures Shaped(r, s)
  {
    if layer == 1 then TurnFace(faces, s, f, Quarters(clockwise, twice)) else faces
  }

  /** The lower-case branch of `rotate`: layers `1` to `n` in turn. */
  function WideTurn(faces: Faces, s: int, f: int, n: int, clockwise: bool, twice: bool): (r: Faces)
    requires Shaped(faces, s) && 0 <= f < 6 && 0 <= n <= s
    ensures Shaped(r, s)
  {
    if n == 0 then faces
    else FaceLayerTurn(WideTurn(faces, s, f, n - 1, clockwise, twice), s, f, n, clockwise, twice)
  }

  /** The layer a numbered move names exists. */
  predicate Fits(c: Command, s: int)
  {
    0 <= c.face < 6 && (c.Layered? ==> 1 <= c.layer <= s)
  }

  /** A numbered move about L or R (faces 2 and 5) whose layer is not on
      the cube: `rotateLayer` reads and writes past the end of the rows
      instead of failing. */
  predicate LengthensRows(c: Command, s: int)
  {
    c.Layered? && c.face % 3 == 2 && !(1 <= c.layer <= s)
  }

  /** The error a numbered move about U, F, D or B raises when its layer is
      not on the cube: the row it reads is `undefined`. */
  const NoRow := "TypeError: row is undefined"

  /** What `rotate` does with a parsed move; a lower-case move turns the
      layers up to `s / 2`. */
  function Perform(faces: Faces, s: int, c: Command): (r: Faces)
    requires Shaped(faces, s) && Fits(c, s)
    ensures Shaped(r, s)
  {
    match c
    case Layered(f, layer, clockwise, twice) => FaceLayerTurn(faces, s, f, layer, clockwise, twice)
    case Wide(f, clockwise, twice) => WideTurn(faces, s, f, s / 2, clockwise, twice)
  }

  // ---------------------------------------------------------------------
  // A face turn and a layer turn of the same face do not interfere

  /** Read a list along `r`, turn it as `rotateLayer` does, write it back
      along `w`: the shape of both the source's layer turn and the fixed one. */
  function Move(faces: Faces, s: int, r: seq<Cell>, w: seq<Cell>, clockwise: bool, twice: bool, size: nat): (g: Faces)
    requires Shaped(faces, s) && AllInCube(s, r) && AllInCube(s, w) && |r| == |w|
    ensures Shaped(g, s)
  {
    Scatter(faces, s, w, TurnList(Gather(faces, s, r), clockwise, twice, size))
  }

  predicate OffFace(p: seq<Cell>, f: int)
  {
    forall k :: 0 <= k < |p| ==> p[k].face != f
  }

  /** A face turn leaves every path off that face reading the same. */
  lemma GatherOffFace(faces: Faces, s: int, p: seq<Cell>, f: int, m: int)
    requires Shaped(faces, s) && AllInCube(s, p) && 0 <= f < 6 && OffFace(p, f)
    ensures Gather(TurnFace(faces, s, f, m), s, p) == Gather(faces, s, p)
  {
    TurnFaceOnlyFace(faces, s, f, m);
    forall k | 0 <= k < |p|
      ensures At(TurnFace(faces, s, f, m), s, p[k]) == At(faces, s, p[k])
    {
      assert TurnFace(faces, s, f, m)[p[k].face] == faces[p[k].face];
    }
  }

  /** A move along paths off face `f` commutes with a turn of face `f`. */
  lemma MoveFaceCommute(faces: Faces, s: int, r: seq<Cell>, w: seq<Cell>, clockwise: bool, twice: bool, size: nat, f: int, m: int)
    requires Shaped(faces, s) && AllInCube(s, r) && AllInCube(s, w) && |r| == |w| && Distinct(w)
    requires 0 <= f < 6 && OffFace(r, f) && OffFace(w, f)
    ensures TurnFace(Move(faces, s, r, w, clockwise, twice, size), s, f, m)
         == Move(TurnFace(faces, s, f, m), s, r, w, clockwise, twice, size)
  {
    var moved := Move(faces, s, r, w, clockwise, twice, size);
    var turned := TurnFace(faces, s, f, m);
    var a := TurnFace(moved, s, f, m);
    var b := Move(turned, s, r, w, clockwise, twice, size);
    var v := TurnList(Gather(faces, s, r), clockwise, twice, size);
    GatherOffFace(faces, s, r, f, m);
    assert b == Scatter(turned, s, w, v);
    TurnFaceOnlyFace(faces, s, f, m);
    TurnFaceOnlyFace(moved, s, f, m);
    forall c | InCube(s, c)
      ensures At(a, s, c) == At(b, s, c)
    {
      if c.face == f {
        var d := Source(s, m, c);
        TurnFaceCell(moved, s, m, c);
        TurnFaceCell(faces, s, m, c);
        ScatterOff(faces, s, w, v, d);
        ScatterOff(turned, s, w, v, c);
      } else {
        assert At(a, s, c) == At(moved, s, c) by {
          assert a[c.face] == moved[c.face];
        }
        assert At(turned, s, c) == At(faces, s, c) by {
          assert turned[c.face] == faces[c.face];
        }
        if k :| 0 <= k < |w| && w[k] == c {
          ScatterAt(faces, s, w, v, k);
          ScatterAt(turned, s, w, v, k);
        } else {
          ScatterOff(faces, s, w, v, c);
          ScatterOff(turned, s, w, v, c);
        }
      }
    }
    FacesEqual(a, b, s);
  }

  /** Both strips of a layer turn about face `f` stay off face `f`. */
  lemma StripsOffFace(s: int, f: int, L: int)
    requires IsLayer(s, f, L)
    ensures OffFace(ReadStrip(s, f, L), f) && OffFace(WriteStrip(s, f, L), f)
  {
    ReadStripOff(s, f, L);
    WriteStripOff(s, f, L);
  }

  lemma ReadStripOff(s: int, f: int, L: int)
    requires IsLayer(s, f, L)
    ensures OffFace(ReadStrip(s, f, L), f)
  {
    PartnersAxis(f);
    FlattenDistinct(ReadSegments(s, f, L), Partners(f));
  }

  lemma WriteStripOff(s: int, f: int, L: int)
    requires IsLayer(s, f, L)
    ensures OffFace(WriteStrip(s, f, L), f)
  {
    PartnersAxis(f);
    FlattenDistinct(WriteSegments(s, f, L), Partners(f));
  }

  /** The face turn and the layer turn of one move commute. */
  lemma FaceLayerCommute(faces: Faces, s: int, f: int, L: int, clockwise: bool, twice: bool, m: int)
    requires Shaped(faces, s) && IsLayer(s, f, L)
    ensures TurnFace(TurnLayer(faces, s, f, L, clockwise, twice), s, f, m)
         == TurnLayer(TurnFace(faces, s, f, m), s, f, L, clockwise, twice)
  {
    StripsOffFace(s, f, L);
    MoveFaceCommute(faces, s, ReadStrip(s, f, L), WriteStrip(s, f, L), LayerClockwise(f, clockwise), twice, s, f, m);
  }

  // ---------------------------------------------------------------------
  // Properties of moves

  /** Opposite face turns of the same kind undo each other. */
  lemma FaceBack(faces: Faces, s: int, f: int, clockwise: bool, twice: bool)
    requires Shaped(faces, s) && 0 <= f < 6
    ensures TurnFace(TurnFace(faces, s, f, Quarters(clockwise, twice)), s, f, Quarters(!clockwise, twice)) == faces
  {
    TurnFaceInverse(faces, s, f, twice);
  }

  /** The face turn of the opposite move cancels the face turn of the
      move, across the layer turn between them. */
  lemma OuterBack(faces: Faces, s: int, f: int, layer: int, clockwise: bool, twice: bool)
    requires Shaped(faces, s) && 0 <= f < 6 && 1 <= layer <= s
    ensures var once := TurnLayer(Outer(faces, s, f, layer, clockwise, twice), s, f, layer - 1, clockwise, twice);
      Outer(once, s, f, layer, !clockwise, twice) == TurnLayer(faces, s, f, layer - 1, clockwise, twice)
  {
    if layer == 1 {
      var turned := TurnFace(faces, s, f, Quarters(clockwise, twice));
      assert Outer(faces, s, f, layer, clockwise, twice) == turned;
      FaceLayerCommute(turned, s, f, 0, clockwise, twice, Quarters(!clockwise, twice));
      FaceBack(faces, s, f, clockwise, twice);
    }
  }

  /** On every face but 1 and 4, a move and the opposite move undo each
      other. */
  lemma FaceLayerTurnInverse(faces: Faces, s: int, f: int, layer: int, clockwise: bool, twice: bool)
    requires Shaped(faces, s) && 0 <= f < 6 && 1 <= layer <= s && f % 3 != 1
    ensures FaceLayerTurn(FaceLayerTurn(faces, s, f, layer, clockwise, twice), s, f, layer, !clockwise, twice) == faces
  {
    var L := layer - 1;
    var once := TurnLayer(Outer(faces, s, f, layer, clockwise, twice), s, f, L, clockwise, twice);
    assert FaceLayerTurn(faces, s, f, layer, clockwise, twice) == once;
    OuterBack(faces, s, f, layer, clockwise, twice);
    assert FaceLayerTurn(once, s, f, layer, !clockwise, twice) == TurnLayer(TurnLayer(faces, s, f, L, clockwise, twice), s, f, L, !clockwise, twice);
    TurnLayerInverse(faces, s, f, L, clockwise, twice);
  }

  /** The outer layer's part of `F` followed by `F'` is the layer turn
      followed by its opposite: the face turns cancel. */
  lemma FrontMoveBack(faces: Faces, s: int)
    requires Shaped(faces, s) && 1 <= s
    ensures FaceLayerTurn(FaceLayerTurn(faces, s, 1, 1, true, false), s, 1, 1, false, false)
         == TurnLayer(TurnLayer(faces, s, 1, 0, true, false), s, 1, 0, false, false)
  {
    var turned := TurnFace(faces, s, 1, Quarters(true, false));
    FaceLayerCommute(turned, s, 1, 0, true, false, Quarters(false, false));
    FaceBack(faces, s, 1, true, false);
  }

  /** `F` and `F'` name the outer layer of face 1, turned one way and the
      other. */
  lemma ParseFront()
    ensures ParseCommand("F") == Ok(Layered(1, 1, true, false))
    ensures ParseCommand("F'") == Ok(Layered(1, 1, false, false))
  {
    assert DigitRun("F") == 0 && DigitRun("F'") == 0;
  }

  /** `rotate("F")` followed by `rotate("F'")` does not restore the cube
      once the bottom-left and bottom-right stickers of face 0 differ. */
  lemma FrontMoveNotUndone(faces: Faces, s: int)
    requires Shaped(faces, s) && 2 <= s
    requires At(faces, s, Cell(0, s - 1, 0)) != At(faces, s, Cell(0, s - 1, s - 1))
    ensures Perform(Perform(faces, s, Layered(1, 1, true, false)), s, Layered(1, 1, false, false)) != faces
  {
    FrontMoveBack(faces, s);
    FrontLayerTurnBack(faces, s);
  }

  /** A move keeps the cube's stickers. */
  lemma FaceLayerTurnStickers(faces: Faces, s: int, f: int, layer: int, clockwise: bool, twice: bool)
    requires Shaped(faces, s) && 0 <= f < 6 && 1 <= layer <= s
    ensures Stickers(FaceLayerTurn(faces, s, f, layer, clockwise, twice)) == Stickers(faces)
  {
    var outer := Outer(faces, s, f, layer, clockwise, twice);
    OuterStickers(faces, s, f, layer, clockwise, twice);
    TurnLayerStickers(outer, s, f, layer - 1, clockwise, twice);
    assert FaceLayerTurn(faces, s, f, layer, clockwise, twice) == TurnLayer(outer, s, f, layer - 1, clockwise, twice);
  }

  lemma OuterStickers(faces: Faces, s: int, f: int, layer: int, clockwise: bool, twice: bool)
    requires Shaped(faces, s) && 0 <= f < 6
    ensures Stickers(Outer(faces, s, f, layer, clockwise, twice)) == Stickers(faces)
  {
    if layer == 1 {
      TurnFaceStickers(faces, s, f, Quarters(clockwise, twice));
    }
  }

  /** Every parsed move keeps the cube's stickers. */
  lemma PerformStickers(faces: Faces, s: int, c: Command)
    requires Shaped(faces, s) && Fits(c, s)
    ensures Stickers(Perform(faces, s, c)) == Stickers(faces)
  {
    match c
    case Layered(f, layer, clockwise, twice) =>
      FaceLayerTurnStickers(faces, s, f, layer, clockwise, twice);
    case Wide(f, clockwise, twice) =>
      WideTurnStickers(faces, s, f, s / 2, clockwise, twice);
  }

  lemma {:induction false} WideTurnStickers(faces: Faces, s: int, f: int, n: int, clockwise: bool, twice: bool)
    requires Shaped(faces, s) && 0 <= f < 6 && 0 <= n <= s
    ensures Stickers(WideTurn(faces, s, f, n, clockwise, twice)) == Stickers(faces)
  {
    if n == 0 {
      WideZero(faces, s, f, clockwise, twice);
    } else {
      WideTurnStickers(faces, s, f, n - 1, clockwise, twice);
      WideStepStickers(faces, s, f, n, clockwise, twice);
    }
  }

  lemma WideZero(faces: Faces, s: int, f: int, clockwise: bool, twice: bool)
    requires Shaped(faces, s) && 0 <= f < 6
    ensures WideTurn(faces, s, f, 0, clockwise, twice) == faces
  {
  }

  lemma WideStepStickers(faces: Faces, s: int, f: int, n: int, clockwise: bool, twice: bool)
    requires Shaped(faces, s) && 0 <= f < 6 && 1 <= n <= s
    ensures Stickers(WideTurn(faces, s, f, n, clockwise, twice)) == Stickers(WideTurn(faces, s, f, n - 1, clockwise, twice))
  {
    FaceLayerTurnStickers(WideTurn(faces, s, f, n - 1, clockwise, twice), s, f, n, clockwise, twice);
  }

  // ---------------------------------------------------------------------
  // The corrected move

  /** `rotateFaceLayer` with the layer written back along the path it was
      read from. */
  function FixedFaceLayerTurn(faces: Faces, s: int, f: int, layer: int, clockwise: bool, twice: bool): (r: Faces)
    requires Shaped(faces, s) && 0 <= f < 6 && 1 <= layer <= s
    ensures Shaped(r, s)
  {
    FixedTurnLayer(Outer(faces, s, f, layer, clockwise, twice), s, f, layer - 1, clockwise, twice)
  }

  /** It agrees with the source on every face but 1 and 4. */
  lemma FixedFaceLayerTurnAgrees(faces: Faces, s: int, f: int, layer: int, clockwise: bool, twice: bool)
    requires Shaped(faces, s) && 0 <= f < 6 && 1 <= layer <= s && f % 3 != 1
    ensures FixedFaceLayerTurn(faces, s, f, layer, clockwise, twice) == FaceLayerTurn(faces, s, f, layer, clockwise, twice)
  {
    var outer := Outer(faces, s, f, layer, clockwise, twice);
    FixedTurnLayerAgrees(outer, s, f, layer - 1, clockwise, twice);
    assert FaceLayerTurn(faces, s, f, layer, clockwise, twice) == TurnLayer(outer, s, f, layer - 1, clockwise, twice);
    assert FixedFaceLayerTurn(faces, s, f, layer, clockwise, twice) == FixedTurnLayer(outer, s, f, layer - 1, clockwise, twice);
  }

  /** The same cancellation for the fixed layer turn. */
  lemma FixedOuterBack(faces: Faces, s: int, f: int, layer: int, clockwise: bool, twice: bool)
    requires Shaped(faces, s) && 0 <= f < 6 && 1 <= layer <= s
    ensures var once := FixedTurnLayer(Outer(faces, s, f, layer, clockwise, twice), s, f, layer - 1, clockwise, twice);
      Outer(once, s, f, layer, !clockwise, twice) == FixedTurnLayer(faces, s, f, layer - 1, clockwise, twice)
  {
    if layer == 1 {
      var turned := TurnFace(faces, s, f, Quarters(clockwise, twice));
      var r := ReadStrip(s, f, 0);
      assert Outer(faces, s, f, layer, clockwise, twice) == turned;
      ReadStripOff(s, f, 0);
      MoveFaceCommute(turned, s, r, r, LayerClockwise(f, clockwise), twice, s, f, Quarters(!clockwise, twice));
      FaceBack(faces, s, f, clockwise, twice);
    }
  }

  /** With the fix every move, about every face, is undone by the opposite
      move. */
  lemma FixedFaceLayerTurnInverse(faces: Faces, s: int, f: int, layer: int, clockwise: bool, twice: bool)
    requires Shaped(faces, s) && 0 <= f < 6 && 1 <= layer <= s
    ensures FixedFaceLayerTurn(FixedFaceLayerTurn(faces, s, f, layer, clockwise, twice), s, f, layer, !clockwise, twice) == faces
  {
    var L := layer - 1;
    var once := FixedTurnLayer(Outer(faces, s, f, layer, clockwise, twice), s, f, L, clockwise, twice);
    assert FixedFaceLayerTurn(faces, s, f, layer, clockwise, twice) == once;
    FixedOuterBack(faces, s, f, layer, clockwise, twice);
    assert FixedFaceLayerTurn(once, s, f, layer, !clockwise, twice) == FixedTurnLayer(FixedTurnLayer(faces, s, f, L, clockwise, twice), s, f, L, !clockwise, twice);
    FixedTurnLayerInverse(faces, s, f, L, clockwise, twice);
  }
}
