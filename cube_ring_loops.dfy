/** The loops `rotateFace` uses in both `RubikClass.js` and
    `RubikSolver.js` to read ring `i` of a face into a list (four `push`
    loops: along the top row, down the right column, back along the bottom
    row, up the left column) and to write a list back along the same ring
    (four `shift` loops in the same order). Each loop walks one side of
    the ring; the four sides laid end to end are `Ring(s, f, i)`. */
module CubeRingLoops {
  import opened CubeCells
  import opened CubeFaces

  /** Row `i`, left to right. */
  function TopSide(s: int, f: int, i: int): (p: seq<Cell>)
    requires IsRing(s, f, i)
    ensures |p| == s - 2 * i && AllInCube(s, p)
  {
    seq(s - 2 * i, k requires 0 <= k < s - 2 * i => Cell(f, i, i + k))
  }

  /** Column `s - 1 - i`, top to bottom, below row `i`. */
  function RightSide(s: int, f: int, i: int): (p: seq<Cell>)
    requires IsRing(s, f, i)
    ensures |p| == s - 2 * i - 1 && AllInCube(s, p)
  {
    seq(s - 2 * i - 1, k requires 0 <= k < s - 2 * i - 1 => Cell(f, i + 1 + k, s - 1 - i))
  }

  /** Row `s - 1 - i`, right to left, left of the last column. */
  function BottomSide(s: int, f: int, i: int): (p: seq<Cell>)
    requires IsRing(s, f, i)
    ensures |p| == s - 2 * i - 1 && AllInCube(s, p)
  {
    seq(s - 2 * i - 1, k requires 0 <= k < s - 2 * i - 1 => Cell(f, s - 1 - i, s - 2 - i - k))
  }

  /** Column `i`, bottom to top, strictly between rows `i` and `s - 1 - i`. */
  function LeftSide(s: int, f: int, i: int): (p: seq<Cell>)
    requires IsRing(s, f, i)
    ensures |p| == (if s - 2 * i == 1 then 0 else s - 2 * i - 2) && AllInCube(s, p)
  {
    var n := if s - 2 * i == 1 then 0 else s - 2 * i - 2;
    seq(n, k requires 0 <= k < n => Cell(f, s - 2 - i - k, i))
  }

  /** The four sides, in the order the loops visit them, make up the ring. */
  lemma RingSides(s: int, f: int, i: int)
    requires IsRing(s, f, i)
    ensures Ring(s, f, i) == TopSide(s, f, i) + (RightSide(s, f, i) + (BottomSide(s, f, i) + LeftSide(s, f, i)))
  {
    var ring := Ring(s, f, i);
    var sides := TopSide(s, f, i) + (RightSide(s, f, i) + (BottomSide(s, f, i) + LeftSide(s, f, i)));
    assert |sides| == |ring|;
    forall k | 0 <= k < |ring|
      ensures ring[k] == sides[k]
    {
    }
  }

  /** Reading one more cell of a path appends its sticker. */
  lemma GatherSnoc(faces: Faces, s: int, p: seq<Cell>, n: int)
    requires Shaped(faces, s) && AllInCube(s, p) && 0 <= n < |p|
    ensures Gather(faces, s, p[..n + 1]) == Gather(faces, s, p[..n]) + [At(faces, s, p[n])]
  {
    assert p[..n + 1][..n] == p[..n];
  }

  /** Writing one more cell of a path is one more `Put`. */
  lemma ScatterSnoc(faces: Faces, s: int, p: seq<Cell>, v: seq<Sticker>, n: int)
    requires Shaped(faces, s) && AllInCube(s, p) && |v| == |p| && 0 <= n < |p|
    ensures Scatter(faces, s, p[..n + 1], v[..n + 1]) == Put(Scatter(faces, s, p[..n], v[..n]), s, p[n], v[n])
  {
    assert p[..n + 1][..n] == p[..n];
    assert v[..n + 1][..n] == v[..n];
  }

  /** The list the four `push` loops build for ring `i` of face `f`. */
  method ReadRing(faces: Faces, s: int, f: int, i: int) returns (list: seq<Sticker>)
    requires Shaped(faces, s) && IsRing(s, f, i)
    ensures list == Gather(faces, s, Ring(s, f, i))
  {
    list := ReadTop(faces, s, f, i, []);
    list := ReadRight(faces, s, f, i, list);
    list := ReadBottom(faces, s, f, i, list);
    list := ReadLeft(faces, s, f, i, list);
    GatherSides(faces, s, f, i);
  }

  lemma GatherSides(faces: Faces, s: int, f: int, i: int)
    requires Shaped(faces, s) && IsRing(s, f, i)
    ensures Gather(faces, s, Ring(s, f, i))
         == [] + Gather(faces, s, TopSide(s, f, i)) + Gather(faces, s, RightSide(s, f, i))
            + Gather(faces, s, BottomSide(s, f, i)) + Gather(faces, s, LeftSide(s, f, i))
  {
    RingSides(s, f, i);
    var top, right, bottom, left := TopSide(s, f, i), RightSide(s, f, i), BottomSide(s, f, i), LeftSide(s, f, i);
    AllInCubeAppend(s, bottom, left);
    AllInCubeAppend(s, right, bottom + left);
    GatherAppend(faces, s, bottom, left);
    GatherAppend(faces, s, right, bottom + left);
    GatherAppend(faces, s, top, right + (bottom + left));
  }

  method ReadTop(faces: Faces, s: int, f: int, i: int, list0: seq<Sticker>) returns (list: seq<Sticker>)
    requires Shaped(faces, s) && IsRing(s, f, i)
    ensures list == list0 + Gather(faces, s, TopSide(s, f, i))
  {
    ghost var side := TopSide(s, f, i);
    list := list0;
    var j := i;
    while j < s - i
      invariant i <= j <= s - i
      invariant list == list0 + Gather(faces, s, side[..j - i])
    {
      GatherSnoc(faces, s, side, j - i);
      list := list + [faces[f][i][j]];
      j := j + 1;
    }
    assert side[..j - i] == side;
  }

  method ReadRight(faces: Faces, s: int, f: int, i: int, list0: seq<Sticker>) returns (list: seq<Sticker>)
    requires Shaped(faces, s) && IsRing(s, f, i)
    ensures list == list0 + Gather(faces, s, RightSide(s, f, i))
  {
    ghost var side := RightSide(s, f, i);
    list := list0;
    var j := i + 1;
    while j < s - i
      invariant i + 1 <= j <= s - i || (s - 2 * i == 1 && j == i + 1)
      invariant list == list0 + Gather(faces, s, side[..j - i - 1])
    {
      GatherSnoc(faces, s, side, j - i - 1);
      list := list + [faces[f][j][s - i - 1]];
      j := j + 1;
    }
    assert side[..j - i - 1] == side;
  }

  method ReadBottom(faces: Faces, s: int, f: int, i: int, list0: seq<Sticker>) returns (list: seq<Sticker>)
    requires Shaped(faces, s) && IsRing(s, f, i)
    ensures list == list0 + Gather(faces, s, BottomSide(s, f, i))
  {
    ghost var side := BottomSide(s, f, i);
    list := list0;
    var j := s - i - 2;
    while j >= i
      invariant i - 1 <= j <= s - i - 2
      invariant list == list0 + Gather(faces, s, side[..s - i - 2 - j])
    {
      GatherSnoc(faces, s, side, s - i - 2 - j);
      list := list + [faces[f][s - i - 1][j]];
      j := j - 1;
    }
    assert side[..s - i - 2 - j] == side;
  }

  method ReadLeft(faces: Faces, s: int, f: int, i: int, list0: seq<Sticker>) returns (list: seq<Sticker>)
    requires Shaped(faces, s) && IsRing(s, f, i)
    ensures list == list0 + Gather(faces, s, LeftSide(s, f, i))
  {
    ghost var side := LeftSide(s, f, i);
    list := list0;
    var j := s - i - 2;
    ghost var t := 0;
    while j > i
      invariant if s - 2 * i == 1 then j == i - 1 && t == 0 else i <= j <= s - i - 2 && t == s - i - 2 - j
      invariant list == list0 + Gather(faces, s, side[..t])
    {
      GatherSnoc(faces, s, side, t);
      list := list + [faces[f][j][i]];
      j := j - 1;
      t := t + 1;
    }
    assert side[..t] == side;
  }

  /** The faces after the four `shift` loops write `list` back along ring
      `i` of face `f`. */
  method WriteRing(faces: Faces, s: int, f: int, i: int, list: seq<Sticker>) returns (r: Faces)
    requires Shaped(faces, s) && IsRing(s, f, i) && |list| == RingLength(s, i)
    ensures r == Scatter(faces, s, Ring(s, f, i), list)
  {
    RingSides(s, f, i);
    var r1, rest1 := WriteTop(faces, s, f, i, list);
    var r2, rest2 := WriteRight(r1, s, f, i, rest1);
    var r3, rest3 := WriteBottom(r2, s, f, i, rest2);
    r := WriteLeft(r3, s, f, i, rest3);
    ScatterSides(faces, s, TopSide(s, f, i), RightSide(s, f, i), BottomSide(s, f, i), LeftSide(s, f, i), list);
  }

  /** Writing along `p + q` writes the first `|p|` stickers along `p` and
      the rest along `q`. */
  lemma ScatterSplit(faces: Faces, s: int, p: seq<Cell>, q: seq<Cell>, v: seq<Sticker>)
    requires Shaped(faces, s) && AllInCube(s, p) && AllInCube(s, q) && |v| == |p| + |q|
    ensures AllInCube(s, p + q)
    ensures Scatter(faces, s, p + q, v) == Scatter(Scatter(faces, s, p, v[..|p|]), s, q, v[|p|..])
  {
    AllInCubeAppend(s, p, q);
    var a, b := v[..|p|], v[|p|..];
    assert v == a + b;
    calc {
      Scatter(faces, s, p + q, v);
      Scatter(faces, s, p + q, a + b);
      { ScatterAppend(faces, s, p, a, q, b); }
      Scatter(Scatter(faces, s, p, a), s, q, b);
    }
  }

  /** Writing along four paths in turn, each taking the next stretch of
      the list, is one write along the four laid end to end. */
  lemma ScatterSides(faces: Faces, s: int, p1: seq<Cell>, p2: seq<Cell>, p3: seq<Cell>, p4: seq<Cell>, v: seq<Sticker>)
    requires Shaped(faces, s) && AllInCube(s, p1) && AllInCube(s, p2) && AllInCube(s, p3) && AllInCube(s, p4)
    requires |v| == |p1| + |p2| + |p3| + |p4|
    ensures AllInCube(s, p1 + (p2 + (p3 + p4)))
    ensures
      var v2 := v[|p1|..];
      var v3 := v2[|p2|..];
      var v4 := v3[|p3|..];
      Scatter(faces, s, p1 + (p2 + (p3 + p4)), v)
      == Scatter(Scatter(Scatter(Scatter(faces, s, p1, v[..|p1|]), s, p2, v2[..|p2|]), s, p3, v3[..|p3|]), s, p4, v4)
  {
    AllInCubeAppend(s, p3, p4);
    AllInCubeAppend(s, p2, p3 + p4);
    AllInCubeAppend(s, p1, p2 + (p3 + p4));
    var v2 := v[|p1|..];
    var v3 := v2[|p2|..];
    ScatterSplit(faces, s, p1, p2 + (p3 + p4), v);
    var r1 := Scatter(faces, s, p1, v[..|p1|]);
    ScatterSplit(r1, s, p2, p3 + p4, v2);
    var r2 := Scatter(r1, s, p2, v2[..|p2|]);
    ScatterSplit(r2, s, p3, p4, v3);
  }

  method WriteTop(faces: Faces, s: int, f: int, i: int, list: seq<Sticker>) returns (r: Faces, rest: seq<Sticker>)
    requires Shaped(faces, s) && IsRing(s, f, i) && |list| >= s - 2 * i
    ensures rest == list[s - 2 * i..]
    ensures r == Scatter(faces, s, TopSide(s, f, i), list[..s - 2 * i])
  {
    ghost var side := TopSide(s, f, i);
    ghost var v := list[..|side|];
    r := faces;
    rest := list;
    var j := i;
    while j < s - i
      invariant i <= j <= s - i
      invariant rest == list[j - i..]
      invariant r == Scatter(faces, s, side[..j - i], v[..j - i])
    {
      ScatterSnoc(faces, s, side, v, j - i);
      r := Put(r, s, Cell(f, i, j), rest[0]);
      rest := rest[1..];
      j := j + 1;
    }
    assert side[..j - i] == side && v[..j - i] == v;
  }

  method WriteRight(faces: Faces, s: int, f: int, i: int, list: seq<Sticker>) returns (r: Faces, rest: seq<Sticker>)
    requires Shaped(faces, s) && IsRing(s, f, i) && |list| >= s - 2 * i - 1
    ensures rest == list[s - 2 * i - 1..]
    ensures r == Scatter(faces, s, RightSide(s, f, i), list[..s - 2 * i - 1])
  {
    ghost var side := RightSide(s, f, i);
    ghost var v := list[..|side|];
    r := faces;
    rest := list;
    var j := i + 1;
    while j < s - i
      invariant i + 1 <= j <= s - i || (s - 2 * i == 1 && j == i + 1)
      invariant rest == list[j - i - 1..]
      invariant r == Scatter(faces, s, side[..j - i - 1], v[..j - i - 1])
    {
      ScatterSnoc(faces, s, side, v, j - i - 1);
      r := Put(r, s, Cell(f, j, s - i - 1), rest[0]);
      rest := rest[1..];
      j := j + 1;
    }
    assert side[..j - i - 1] == side && v[..j - i - 1] == v;
  }

  method WriteBottom(faces: Faces, s: int, f: int, i: int, list: seq<Sticker>) returns (r: Faces, rest: seq<Sticker>)
    requires Shaped(faces, s) && IsRing(s, f, i) && |list| >= s - 2 * i - 1
    ensures rest == list[s - 2 * i - 1..]
    ensures r == Scatter(faces, s, BottomSide(s, f, i), list[..s - 2 * i - 1])
  {
    ghost var side := BottomSide(s, f, i);
    ghost var v := list[..|side|];
    r := faces;
    rest := list;
    var j := s - i - 2;
    ghost var t := 0;
    while j >= i
      invariant i - 1 <= j <= s - i - 2
      invariant t == s - i - 2 - j
      invariant rest == list[t..]
      invariant r == Scatter(faces, s, side[..t], v[..t])
    {
      ScatterSnoc(faces, s, side, v, t);
      r := Put(r, s, Cell(f, s - i - 1, j), rest[0]);
      rest := rest[1..];
      j := j - 1;
      t := t + 1;
    }
    assert side[..t] == side && v[..t] == v;
  }

  method WriteLeft(faces: Faces, s: int, f: int, i: int, list: seq<Sticker>) returns (r: Faces)
    requires Shaped(faces, s) && IsRing(s, f, i) && |list| == |LeftSide(s, f, i)|
    ensures r == Scatter(faces, s, LeftSide(s, f, i), list)
  {
    ghost var side := LeftSide(s, f, i);
    r := faces;
    var rest := list;
    var j := s - i - 2;
    ghost var t := 0;
    while j > i
      invariant if s - 2 * i == 1 then j == i - 1 && t == 0 else i <= j <= s - i - 2 && t == s - i - 2 - j
      invariant rest == list[t..]
      invariant r == Scatter(faces, s, side[..t], list[..t])
    {
      ScatterSnoc(faces, s, side, list, t);
      r := Put(r, s, Cell(f, j, i), rest[0]);
      rest := rest[1..];
      j := j - 1;
      t := t + 1;
    }
    assert side[..t] == side && list[..t] == list;
  }
}
