/** A face turn moves stickers within one face only, and the same way
    whichever slot the face is in. That lets a turn be read as a function
    of one face's grid, `Spin`, which is what whole-cube reorientations
    (faces changing slots) are stated with. */
module CubeSpin {
  import opened CubeCells
  import opened CubeTurns
  import opened CubeFaces

  /** The place of a cell on the ring of its level, in reading order. */
  function RingIndex(s: int, c: Cell): int
  {
    var i := Level(s, c);
    var d := s - 2 * i;
    if c.row == i then c.col - i
    else if c.col == s - 1 - i then d + (c.row - i - 1)
    else if c.row == s - 1 - i then 2 * d - 1 + (s - 2 - i - c.col)
    else 3 * d - 2 + (s - 2 - i - c.row)
  }

  /** Every cell of a face is on the ring of its level, at `RingIndex`. */
  lemma RingCover(s: int, c: Cell)
    requires InCube(s, c)
    ensures IsRing(s, c.face, Level(s, c))
    ensures 0 <= RingIndex(s, c) < RingLength(s, Level(s, c))
    ensures RingCell(s, c.face, Level(s, c), RingIndex(s, c)) == c
  {
  }

  /** The cell whose sticker a face turn of `m` quarters brings to `c`:
      the one `Steps` places before `c` on its ring. */
  function Source(s: int, m: int, c: Cell): (d: Cell)
    requires InCube(s, c)
    ensures InCube(s, d) && d.face == c.face
  {
    var i := Level(s, c);
    RingCover(s, c);
    RingCell(s, c.face, i, Back(RingIndex(s, c), Steps(s, i, m), RingLength(s, i)))
  }

  /** Where a sticker comes from does not depend on the face. */
  lemma SourceSlot(s: int, m: int, f: int, g: int, row: int, col: int)
    requires InCube(s, Cell(f, row, col)) && 0 <= g < 6
    ensures Source(s, m, Cell(g, row, col)).row == Source(s, m, Cell(f, row, col)).row
    ensures Source(s, m, Cell(g, row, col)).col == Source(s, m, Cell(f, row, col)).col
  {
    var cf, cg := Cell(f, row, col), Cell(g, row, col);
    assert Level(s, cg) == Level(s, cf) && RingIndex(s, cg) == RingIndex(s, cf);
    var i := Level(s, cf);
    RingCover(s, cf);
    var b := Back(RingIndex(s, cf), Steps(s, i, m), RingLength(s, i));
    RingCellFace(s, f, g, i, b);
  }

  lemma RingCellFace(s: int, f: int, g: int, i: int, k: int)
    requires IsRing(s, f, i) && 0 <= g < 6 && 0 <= k < RingLength(s, i)
    ensures RingCell(s, g, i, k).row == RingCell(s, f, i, k).row
    ensures RingCell(s, g, i, k).col == RingCell(s, f, i, k).col
  {
  }

  /** After a face turn, a cell of the face holds what its source held. */
  lemma TurnFaceCell(faces: Faces, s: int, m: int, c: Cell)
    requires Shaped(faces, s) && InCube(s, c)
    ensures At(TurnFace(faces, s, c.face, m), s, c) == At(faces, s, Source(s, m, c))
  {
    var f, i, k := c.face, Level(s, c), RingIndex(s, c);
    RingCover(s, c);
    var ring := Ring(s, f, i);
    TurnFaceRing(faces, s, f, m, i);
    var g := Gather(faces, s, ring);
    var b := Back(k, Steps(s, i, m), |g|);
    assert ring[k] == c;
    assert Gather(TurnFace(faces, s, f, m), s, ring)[k] == At(TurnFace(faces, s, f, m), s, c);
    assert RotRight(g, Steps(s, i, m))[k] == g[b];
    assert g[b] == At(faces, s, ring[b]);
  }

  /** An `s` by `s` grid of stickers: one face. */
  predicate Square(grid: seq<seq<Sticker>>, s: int)
  {
    0 <= s && |grid| == s && forall r :: 0 <= r < s ==> |grid[r]| == s
  }

  /** A cube whose six faces are all `grid`. */
  function Host(grid: seq<seq<Sticker>>, s: int): (faces: Faces)
    requires Square(grid, s)
    ensures Shaped(faces, s) && forall f :: 0 <= f < 6 ==> faces[f] == grid
  {
    [grid, grid, grid, grid, grid, grid]
  }

  /** One face's grid turned by `m` quarter turns clockwise: every cell
      takes the sticker of its source. */
  function Spin(grid: seq<seq<Sticker>>, s: int, m: int): (r: seq<seq<Sticker>>)
    requires Square(grid, s)
    ensures Square(r, s)
  {
    seq(s, row requires 0 <= row < s =>
      seq(s, col requires 0 <= col < s =>
        var d := Source(s, m, Cell(0, row, col));
        grid[d.row][d.col]))
  }

  /** Turning face `f` replaces that face's grid by its spun grid and
      leaves the other five faces as they were. */
  lemma SpinSlot(faces: Faces, s: int, f: int, m: int)
    requires Shaped(faces, s) && 0 <= f < 6
    ensures Square(faces[f], s)
    ensures TurnFace(faces, s, f, m)[f] == Spin(faces[f], s, m)
    ensures TurnFace(faces, s, f, m) == faces[f := Spin(faces[f], s, m)]
  {
    var a, spun := TurnFace(faces, s, f, m), Spin(faces[f], s, m);
    forall row | 0 <= row < s
      ensures a[f][row] == spun[row]
    {
      forall col | 0 <= col < s
        ensures a[f][row][col] == spun[row][col]
      {
        TurnFaceCell(faces, s, m, Cell(f, row, col));
        SourceSlot(s, m, f, 0, row, col);
        var d := Source(s, m, Cell(0, row, col));
        assert spun[row][col] == faces[f][d.row][d.col];
      }
    }
    TurnFaceOnlyFace(faces, s, f, m);
    var b := faces[f := spun];
    assert |a| == 6 && |b| == 6;
    forall g | 0 <= g < 6
      ensures a[g] == b[g]
    {
      if g == f {
        assert |a[f]| == s == |spun|;
      }
    }
  }

  /** Spins add up. */
  lemma SpinCompose(grid: seq<seq<Sticker>>, s: int, a: int, b: int)
    requires Square(grid, s)
    ensures Spin(Spin(grid, s, a), s, b) == Spin(grid, s, a + b)
  {
    var h := Host(grid, s);
    var once := TurnFace(h, s, 0, a);
    SpinSlot(h, s, 0, a);
    SpinSlot(once, s, 0, b);
    SpinSlot(h, s, 0, a + b);
    TurnFaceCompose(h, s, 0, a, b);
  }

  /** A whole number of turns leaves the grid as it was. */
  lemma SpinWhole(grid: seq<seq<Sticker>>, s: int, m: int)
    requires Square(grid, s) && m % 4 == 0
    ensures Spin(grid, s, m) == grid
  {
    SpinSlot(Host(grid, s), s, 0, m);
    TurnFaceWhole(Host(grid, s), s, 0, m);
  }

  /** The cube's stickers are the six faces' stickers together. */
  lemma StickersSix(faces: Faces)
    requires |faces| == 6
    ensures Stickers(faces) == FaceStickers(faces[0]) + FaceStickers(faces[1]) + FaceStickers(faces[2])
                             + FaceStickers(faces[3]) + FaceStickers(faces[4]) + FaceStickers(faces[5])
  {
    var st := FaceStickers;
    assert faces[..5][..4] == faces[..4] && faces[..4][..3] == faces[..3];
    assert faces[..3][..2] == faces[..2] && faces[..2][..1] == faces[..1] && faces[..1][..0] == [];
    assert Total(faces[..1], st) == st(faces[0]);
    assert Total(faces[..2], st) == Total(faces[..1], st) + st(faces[1]);
    assert Total(faces[..3], st) == Total(faces[..2], st) + st(faces[2]);
    assert Total(faces[..4], st) == Total(faces[..3], st) + st(faces[3]);
    assert Total(faces[..5], st) == Total(faces[..4], st) + st(faces[4]);
    assert Total(faces, st) == Total(faces[..5], st) + st(faces[5]);
  }

  /** A spin keeps the face's stickers. */
  lemma SpinStickers(grid: seq<seq<Sticker>>, s: int, m: int)
    requires Square(grid, s)
    ensures FaceStickers(Spin(grid, s, m)) == FaceStickers(grid)
  {
    var h := Host(grid, s);
    var t := TurnFace(h, s, 0, m);
    SpinSlot(h, s, 0, m);
    TurnFaceStickers(h, s, 0, m);
    StickersSix(h);
    StickersSix(t);
    var a, b := FaceStickers(Spin(grid, s, m)), FaceStickers(grid);
    assert t[0] == Spin(grid, s, m) && t[1] == grid && t[2] == grid && t[3] == grid && t[4] == grid && t[5] == grid;
    forall x
      ensures a[x] == b[x]
    {
      assert Stickers(t)[x] == a[x] + 5 * b[x];
      assert Stickers(h)[x] == 6 * b[x];
    }
  }
}
