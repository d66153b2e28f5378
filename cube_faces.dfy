/** The rings of a face and a whole face turn. Ring `i` of an `s` by `s`
    face is the border of the square that starts at `(i, i)` and has side
    `s - 2i`, walked clockwise from its top-left corner: along row `i`,
    down column `s-1-i`, back along row `s-1-i` and up column `i`. A face
    turn rotates every ring by its side minus one, once per quarter turn. */
module CubeFaces {
  import opened CubeCells
  import opened CubeTurns

  /** How far a cell is from the border of its face. */
  function Level(s: int, c: Cell): int
  {
    var a := if c.row < c.col then c.row else c.col;
    var b := if s - 1 - c.row < s - 1 - c.col then s - 1 - c.row else s - 1 - c.col;
    if a < b then a else b
  }

  /** Ring `i` exists while `2i < s`: a single cell when `s - 2i == 1`,
      otherwise four sides of `s - 2i - 1` cells each. */
  predicate IsRing(s: int, f: int, i: int)
  {
    0 <= f < 6 && 0 <= i && 2 * i < s
  }

  function RingLength(s: int, i: int): int
  {
    if s - 2 * i == 1 then 1 else 4 * (s - 2 * i - 1)
  }

  /** The `k`-th cell of ring `i`, in the order the ring is read. */
  function RingCell(s: int, f: int, i: int, k: int): (c: Cell)
    requires IsRing(s, f, i) && 0 <= k < RingLength(s, i)
    ensures InCube(s, c) && c.face == f
  {
    var d := s - 2 * i;
    if k < d then Cell(f, i, i + k)
    else if k < 2 * d - 1 then Cell(f, i + 1 + (k - d), s - 1 - i)
    else if k < 3 * d - 2 then Cell(f, s - 1 - i, s - 2 - i - (k - (2 * d - 1)))
    else Cell(f, s - 2 - i - (k - (3 * d - 2)), i)
  }

  function Ring(s: int, f: int, i: int): (r: seq<Cell>)
    requires IsRing(s, f, i)
    ensures |r| == RingLength(s, i) && AllInCube(s, r)
    ensures forall k :: 0 <= k < |r| ==> r[k].face == f
  {
    seq(RingLength(s, i), k requires 0 <= k < RingLength(s, i) => RingCell(s, f, i, k))
  }

  /** How far ring `i` turns for `m` quarter turns: its side minus one per
      quarter turn. */
  function Steps(s: int, i: int, m: int): int
  {
    Times(m, s - 1 - 2 * i)
  }

  /** No cell is read twice in one ring. */
  lemma RingDistinct(s: int, f: int, i: int)
    requires IsRing(s, f, i)
    ensures Distinct(Ring(s, f, i))
  {
    var r := Ring(s, f, i);
    forall a, b | 0 <= a < b < |r|
      ensures r[a] != r[b]
    {
      assert r[a] == RingCell(s, f, i, a) && r[b] == RingCell(s, f, i, b);
    }
  }

  /** The `k`-th cell of ring `i` is at level `i`. */
  lemma RingCellLevel(s: int, f: int, i: int, k: int)
    requires IsRing(s, f, i) && 0 <= k < RingLength(s, i)
    ensures Ring(s, f, i)[k] == RingCell(s, f, i, k) && Level(s, RingCell(s, f, i, k)) == i
  {
  }

  /** Two different rings of a face share no cell. */
  lemma RingsApart(s: int, f: int, i: int, j: int)
    requires IsRing(s, f, i) && IsRing(s, f, j) && i != j
    ensures Disjoint(Ring(s, f, i), Ring(s, f, j))
  {
    forall a, b | 0 <= a < RingLength(s, i) && 0 <= b < RingLength(s, j)
      ensures Ring(s, f, i)[a] != Ring(s, f, j)[b]
    {
      RingCellLevel(s, f, i, a);
      RingCellLevel(s, f, j, b);
    }
  }

  /** How many rings an `s` by `s` face has. */
  function RingCount(s: int): (n: int)
    requires 0 <= s
    ensures 0 <= n && forall i :: 0 <= i < n <==> 0 <= i && 2 * i < s
  {
    (s + 1) / 2
  }

  /** The rings of face `f`, outermost first. */
  function Rings(s: int, f: int): (rs: seq<seq<Cell>>)
    requires 0 <= s && 0 <= f < 6
    ensures |rs| == RingCount(s)
  {
    seq(RingCount(s), i requires 0 <= i < RingCount(s) => Ring(s, f, i))
  }

  /** How far each ring turns for `m` quarter turns. */
  function RingSteps(s: int, m: int): (ms: seq<int>)
    requires 0 <= s
    ensures |ms| == RingCount(s)
  {
    seq(RingCount(s), i requires 0 <= i < RingCount(s) => Steps(s, i, m))
  }

  /** The rings of a face are non-empty, inside the cube, and no cell is on
      two of them or twice on one. */
  lemma RingsSeparate(s: int, f: int)
    requires 0 <= s && 0 <= f < 6
    ensures AllPaths(s, Rings(s, f)) && Separate(Rings(s, f))
  {
    var rs := Rings(s, f);
    forall i | 0 <= i < |rs|
      ensures |rs[i]| > 0 && Distinct(rs[i])
    {
      RingDistinct(s, f, i);
    }
    forall i, j | 0 <= i < j < |rs|
      ensures Disjoint(rs[i], rs[j])
    {
      RingsApart(s, f, i, j);
    }
  }

  /** Face `f` turned by `m` quarter turns clockwise (negative:
      counter-clockwise): ring `i` of the face, for every `i`, moves
      `Steps(s, i, m)` places along itself. */
  function TurnFace(faces: Faces, s: int, f: int, m: int): (r: Faces)
    requires Shaped(faces, s) && 0 <= f < 6
    ensures Shaped(r, s)
  {
    RingsSeparate(s, f);
    TurnPaths(faces, s, Rings(s, f), RingSteps(s, m))
  }

  /** Quarter turns a `(clockwise, twice)` pair asks for. */
  function Quarters(clockwise: bool, twice: bool): (m: int)
    ensures m == 1 || m == -1 || m == 2 || m == -2
    ensures (m > 0) == clockwise && (m == 2 || m == -2) == twice
  {
    var q := if twice then 2 else 1;
    if clockwise then q else -q
  }

  /** A face turn rotates every ring of the face by its side minus one,
      once per quarter turn: reading ring `j` after the turn gives the ring
      read before it, rotated right by `Steps(s, j, m)`. */
  lemma TurnFaceRing(faces: Faces, s: int, f: int, m: int, j: int)
    requires Shaped(faces, s) && IsRing(s, f, j)
    ensures Gather(TurnFace(faces, s, f, m), s, Ring(s, f, j)) == RotRight(Gather(faces, s, Ring(s, f, j)), Steps(s, j, m))
  {
    RingsSeparate(s, f);
    TurnPathsGather(faces, s, Rings(s, f), RingSteps(s, m), j);
  }

  /** A face turn changes only that face. */
  lemma TurnFaceOnlyFace(faces: Faces, s: int, f: int, m: int)
    requires Shaped(faces, s) && 0 <= f < 6
    ensures forall g :: 0 <= g < 6 && g != f ==> TurnFace(faces, s, f, m)[g] == faces[g]
  {
    var r := TurnFace(faces, s, f, m);
    var rs := Rings(s, f);
    RingsSeparate(s, f);
    forall c | InCube(s, c) && c.face != f
      ensures At(r, s, c) == At(faces, s, c)
    {
      forall i, k | 0 <= i < |rs| && 0 <= k < |rs[i]|
        ensures rs[i][k] != c
      {
        assert rs[i][k].face == f;
      }
      TurnPathsOff(faces, s, rs, RingSteps(s, m), c);
    }
    forall g | 0 <= g < 6 && g != f
      ensures r[g] == faces[g]
    {
      forall row | 0 <= row < s
        ensures r[g][row] == faces[g][row]
      {
        forall col | 0 <= col < s
          ensures r[g][row][col] == faces[g][row][col]
        {
          assert At(r, s, Cell(g, row, col)) == At(faces, s, Cell(g, row, col));
        }
      }
    }
  }

  lemma StepsAdd(s: int, j: int, a: int, b: int, sum: int)
    requires sum == a + b
    ensures Steps(s, j, a) + Steps(s, j, b) == Steps(s, j, sum)
  {
    var d := s - 1 - 2 * j;
    TimesIsMul(a, d);
    TimesIsMul(b, d);
    TimesIsMul(sum, d);
    assert sum * d == a * d + b * d;
  }

  /** A whole turn moves every ring a whole number of times round. */
  lemma StepsWhole(s: int, j: int, m: int)
    requires 0 <= 2 * j < s && m % 4 == 0
    ensures Steps(s, j, m) % RingLength(s, j) == 0
  {
    var n := RingLength(s, j);
    var q := if n == 1 then Steps(s, j, m) else m / 4;
    assert Steps(s, j, m) == n * q by {
      TimesIsMul(m, s - 1 - 2 * j);
      assert m == 4 * (m / 4);
    }
    ModUnique(Steps(s, j, m), n, q, 0);
  }

  /** Face turns add up: `a` quarter turns and then `b` are `a + b`. */
  lemma TurnFaceCompose(faces: Faces, s: int, f: int, a: int, b: int)
    requires Shaped(faces, s) && 0 <= f < 6
    ensures TurnFace(TurnFace(faces, s, f, a), s, f, b) == TurnFace(faces, s, f, a + b)
  {
    RingsSeparate(s, f);
    var sa, sb, ss := RingSteps(s, a), RingSteps(s, b), RingSteps(s, a + b);
    forall i | 0 <= i < RingCount(s)
      ensures ss[i] == sa[i] + sb[i]
    {
      StepsAdd(s, i, a, b, a + b);
    }
    TurnPathsCompose(faces, s, Rings(s, f), sa, sb, ss);
  }

  /** Four quarter turns, or any whole number of turns, change nothing. */
  lemma TurnFaceWhole(faces: Faces, s: int, f: int, m: int)
    requires Shaped(faces, s) && 0 <= f < 6 && m % 4 == 0
    ensures TurnFace(faces, s, f, m) == faces
  {
    RingsSeparate(s, f);
    var rs, ms := Rings(s, f), RingSteps(s, m);
    forall i | 0 <= i < |rs|
      ensures ms[i] % |rs[i]| == 0
    {
      StepsWhole(s, i, m);
    }
    TurnPathsWhole(faces, s, rs, ms);
  }

  /** A clockwise turn and a counter-clockwise turn of the same kind undo
      each other, in either order. */
  lemma TurnFaceInverse(faces: Faces, s: int, f: int, twice: bool)
    requires Shaped(faces, s) && 0 <= f < 6
    ensures TurnFace(TurnFace(faces, s, f, Quarters(true, twice)), s, f, Quarters(false, twice)) == faces
    ensures TurnFace(TurnFace(faces, s, f, Quarters(false, twice)), s, f, Quarters(true, twice)) == faces
  {
    var m := Quarters(true, twice);
    TurnFaceCompose(faces, s, f, m, -m);
    TurnFaceCompose(faces, s, f, -m, m);
    TurnFaceWhole(faces, s, f, 0);
  }

  /** Four clockwise quarter turns restore the face. */
  lemma TurnFaceFour(faces: Faces, s: int, f: int)
    requires Shaped(faces, s) && 0 <= f < 6
    ensures TurnFace(TurnFace(TurnFace(TurnFace(faces, s, f, 1), s, f, 1), s, f, 1), s, f, 1) == faces
  {
    TurnFaceCompose(faces, s, f, 1, 1);
    TurnFaceCompose(faces, s, f, 2, 1);
    TurnFaceCompose(faces, s, f, 3, 1);
    TurnFaceWhole(faces, s, f, 4);
  }

  /** A half turn is two quarter turns. */
  lemma TurnFaceTwice(faces: Faces, s: int, f: int, clockwise: bool)
    requires Shaped(faces, s) && 0 <= f < 6
    ensures TurnFace(faces, s, f, Quarters(clockwise, true))
         == TurnFace(TurnFace(faces, s, f, Quarters(clockwise, false)), s, f, Quarters(clockwise, false))
  {
    var m := Quarters(clockwise, false);
    TurnFaceCompose(faces, s, f, m, m);
  }

  /** A face turn keeps the cube's stickers. */
  lemma TurnFaceStickers(faces: Faces, s: int, f: int, m: int)
    requires Shaped(faces, s) && 0 <= f < 6
    ensures Stickers(TurnFace(faces, s, f, m)) == Stickers(faces)
  {
    RingsSeparate(s, f);
    TurnPathsStickers(faces, s, Rings(s, f), RingSteps(s, m));
  }
}
