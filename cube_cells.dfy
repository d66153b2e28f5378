/** The stickers of a cube and the two operations every turn of
    `RubikClass.js` and `RubikSolver.js` is made of: read a path of cells
    into a list (the `list.push` loops) and write a list back along a path
    (the `list.shift()` loops). Faces are values here: six faces, each a
    list of rows of stickers, addressed by `Cell(face, row, col)`. */
module CubeCells {

  type Sticker = string

  type Faces = seq<seq<seq<Sticker>>>

  datatype Cell = Cell(face: int, row: int, col: int)

  /** Six faces of `s` rows of `s` stickers each. */
  predicate Shaped(faces: Faces, s: int)
  {
    && 0 <= s
    && |faces| == 6
    && (forall i :: 0 <= i < 6 ==> |faces[i]| == s)
    && (forall i, r :: 0 <= i < 6 && 0 <= r < s ==> |faces[i][r]| == s)
  }

  predicate InCube(s: int, c: Cell)
  {
    0 <= c.face < 6 && 0 <= c.row < s && 0 <= c.col < s
  }

  predicate AllInCube(s: int, p: seq<Cell>)
  {
    forall k :: 0 <= k < |p| ==> InCube(s, p[k])
  }

  lemma AllInCubeAppend(s: int, p: seq<Cell>, q: seq<Cell>)
    requires AllInCube(s, p) && AllInCube(s, q)
    ensures AllInCube(s, p + q)
  {
  }

  /** No cell is visited twice. */
  predicate Distinct(p: seq<Cell>)
  {
    forall a, b :: 0 <= a < b < |p| ==> p[a] != p[b]
  }

  /** No cell is on both paths. */
  predicate Disjoint(p: seq<Cell>, q: seq<Cell>)
  {
    forall a, b :: 0 <= a < |p| && 0 <= b < |q| ==> p[a] != q[b]
  }

  function At(faces: Faces, s: int, c: Cell): Sticker
    requires Shaped(faces, s) && InCube(s, c)
  {
    faces[c.face][c.row][c.col]
  }

  /** One assignment `faces[f][r][c] = v`. */
  function Put(faces: Faces, s: int, c: Cell, v: Sticker): (r: Faces)
    requires Shaped(faces, s) && InCube(s, c)
    ensures Shaped(r, s)
  {
    faces[c.face := faces[c.face][c.row := faces[c.face][c.row][c.col := v]]]
  }

  /** After `Put`, cell `c` holds the new sticker and every other cell its old one. */
  lemma PutAt(faces: Faces, s: int, c: Cell, v: Sticker, d: Cell)
    requires Shaped(faces, s) && InCube(s, c) && InCube(s, d)
    ensures At(Put(faces, s, c, v), s, d) == if d == c then v else At(faces, s, d)
  {
  }

  /** The stickers along a path, in path order. */
  function Gather(faces: Faces, s: int, p: seq<Cell>): (r: seq<Sticker>)
    requires Shaped(faces, s) && AllInCube(s, p)
  {
    seq(|p|, k requires 0 <= k < |p| => At(faces, s, p[k]))
  }

  /** Reading a prefix of a path reads a prefix of the list. */
  lemma GatherPrefix(faces: Faces, s: int, p: seq<Cell>, n: int)
    requires Shaped(faces, s) && AllInCube(s, p) && 0 <= n <= |p|
    ensures Gather(faces, s, p)[..n] == Gather(faces, s, p[..n])
  {
  }

  /** Write `v[0]`, `v[1]`, ... into `p[0]`, `p[1]`, ... in that order. */
  function Scatter(faces: Faces, s: int, p: seq<Cell>, v: seq<Sticker>): (r: Faces)
    requires Shaped(faces, s) && AllInCube(s, p) && |v| == |p|
    ensures Shaped(r, s)
    decreases |p|
  {
    if |p| == 0 then faces
    else Put(Scatter(faces, s, p[..|p| - 1], v[..|v| - 1]), s, p[|p| - 1], v[|v| - 1])
  }

  /** Two cubes with the same sticker in every cell are equal. */
  lemma FacesEqual(f: Faces, g: Faces, s: int)
    requires Shaped(f, s) && Shaped(g, s)
    requires forall c :: InCube(s, c) ==> At(f, s, c) == At(g, s, c)
    ensures f == g
  {
    forall i | 0 <= i < 6
      ensures f[i] == g[i]
    {
      forall r | 0 <= r < s
        ensures f[i][r] == g[i][r]
      {
        forall k | 0 <= k < s
          ensures f[i][r][k] == g[i][r][k]
        {
          assert At(f, s, Cell(i, r, k)) == At(g, s, Cell(i, r, k));
        }
      }
    }
  }

  /** After a write along a path of distinct cells, each cell of the path
      holds the value written for it. */
  lemma {:induction false} ScatterAt(faces: Faces, s: int, p: seq<Cell>, v: seq<Sticker>, k: int)
    requires Shaped(faces, s) && AllInCube(s, p) && |v| == |p| && Distinct(p)
    requires 0 <= k < |p|
    ensures At(Scatter(faces, s, p, v), s, p[k]) == v[k]
    decreases |p|
  {
    var n := |p| - 1;
    PutAt(Scatter(faces, s, p[..n], v[..n]), s, p[n], v[n], p[k]);
    if k < n {
      assert p[k] != p[n];
      ScatterAt(faces, s, p[..n], v[..n], k);
    }
  }

  /** A write along a path leaves every other cell alone. */
  lemma {:induction false} ScatterOff(faces: Faces, s: int, p: seq<Cell>, v: seq<Sticker>, c: Cell)
    requires Shaped(faces, s) && AllInCube(s, p) && |v| == |p| && InCube(s, c)
    requires forall k :: 0 <= k < |p| ==> p[k] != c
    ensures At(Scatter(faces, s, p, v), s, c) == At(faces, s, c)
    decreases |p|
  {
    if |p| > 0 {
      var n := |p| - 1;
      PutAt(Scatter(faces, s, p[..n], v[..n]), s, p[n], v[n], c);
      ScatterOff(faces, s, p[..n], v[..n], c);
    }
  }

  /** Reading back a path just written yields what was written. */
  lemma GatherScatter(faces: Faces, s: int, p: seq<Cell>, v: seq<Sticker>)
    requires Shaped(faces, s) && AllInCube(s, p) && |v| == |p| && Distinct(p)
    ensures Gather(Scatter(faces, s, p, v), s, p) == v
  {
    forall k | 0 <= k < |p|
      ensures Gather(Scatter(faces, s, p, v), s, p)[k] == v[k]
    {
      ScatterAt(faces, s, p, v, k);
    }
  }

  /** Writing back what a path holds changes nothing. */
  lemma ScatterGather(faces: Faces, s: int, p: seq<Cell>)
    requires Shaped(faces, s) && AllInCube(s, p) && Distinct(p)
    ensures Scatter(faces, s, p, Gather(faces, s, p)) == faces
  {
    var g := Scatter(faces, s, p, Gather(faces, s, p));
    forall c | InCube(s, c)
      ensures At(g, s, c) == At(faces, s, c)
    {
      if k :| 0 <= k < |p| && p[k] == c {
        ScatterAt(faces, s, p, Gather(faces, s, p), k);
      } else {
        ScatterOff(faces, s, p, Gather(faces, s, p), c);
      }
    }
    FacesEqual(g, faces, s);
  }

  /** A second write along the same path overrides the first. */
  lemma ScatterTwice(faces: Faces, s: int, p: seq<Cell>, v: seq<Sticker>, w: seq<Sticker>)
    requires Shaped(faces, s) && AllInCube(s, p) && |v| == |p| && |w| == |p| && Distinct(p)
    ensures Scatter(Scatter(faces, s, p, v), s, p, w) == Scatter(faces, s, p, w)
  {
    var once := Scatter(faces, s, p, v);
    var g := Scatter(once, s, p, w);
    var h := Scatter(faces, s, p, w);
    forall c | InCube(s, c)
      ensures At(g, s, c) == At(h, s, c)
    {
      if k :| 0 <= k < |p| && p[k] == c {
        ScatterAt(once, s, p, w, k);
        ScatterAt(faces, s, p, w, k);
      } else {
        ScatterOff(once, s, p, w, c);
        ScatterOff(faces, s, p, v, c);
        ScatterOff(faces, s, p, w, c);
      }
    }
    FacesEqual(g, h, s);
  }

  /** A write leaves a disjoint path's stickers as they were. */
  lemma GatherOff(faces: Faces, s: int, p: seq<Cell>, v: seq<Sticker>, q: seq<Cell>)
    requires Shaped(faces, s) && AllInCube(s, p) && AllInCube(s, q) && |v| == |p| && Disjoint(p, q)
    ensures Gather(Scatter(faces, s, p, v), s, q) == Gather(faces, s, q)
  {
    forall b | 0 <= b < |q|
      ensures At(Scatter(faces, s, p, v), s, q[b]) == At(faces, s, q[b])
    {
      ScatterOff(faces, s, p, v, q[b]);
    }
  }

  /** Writes along disjoint paths commute. */
  lemma ScatterCommute(faces: Faces, s: int, p: seq<Cell>, v: seq<Sticker>, q: seq<Cell>, w: seq<Sticker>)
    requires Shaped(faces, s) && AllInCube(s, p) && AllInCube(s, q) && |v| == |p| && |w| == |q|
    requires Distinct(p) && Distinct(q) && Disjoint(p, q)
    ensures Scatter(Scatter(faces, s, p, v), s, q, w) == Scatter(Scatter(faces, s, q, w), s, p, v)
  {
    var pv := Scatter(faces, s, p, v);
    var qw := Scatter(faces, s, q, w);
    var g := Scatter(pv, s, q, w);
    var h := Scatter(qw, s, p, v);
    forall c | InCube(s, c)
      ensures At(g, s, c) == At(h, s, c)
    {
      if a :| 0 <= a < |p| && p[a] == c {
        assert forall b :: 0 <= b < |q| ==> q[b] != c;
        ScatterOff(pv, s, q, w, c);
        ScatterAt(faces, s, p, v, a);
        ScatterAt(qw, s, p, v, a);
      } else if b :| 0 <= b < |q| && q[b] == c {
        ScatterAt(pv, s, q, w, b);
        ScatterOff(qw, s, p, v, c);
        ScatterAt(faces, s, q, w, b);
      } else {
        ScatterOff(pv, s, q, w, c);
        ScatterOff(faces, s, p, v, c);
        ScatterOff(qw, s, p, v, c);
        ScatterOff(faces, s, q, w, c);
      }
    }
    FacesEqual(g, h, s);
  }

  /** Reading two paths one after the other reads their concatenation. */
  lemma GatherAppend(faces: Faces, s: int, p: seq<Cell>, q: seq<Cell>)
    requires Shaped(faces, s) && AllInCube(s, p) && AllInCube(s, q)
    ensures Gather(faces, s, p + q) == Gather(faces, s, p) + Gather(faces, s, q)
  {
  }

  /** Writing along `p` and then along `q` is one write along `p + q`. */
  lemma {:induction false} ScatterAppend(faces: Faces, s: int, p: seq<Cell>, v: seq<Sticker>, q: seq<Cell>, w: seq<Sticker>)
    requires Shaped(faces, s) && AllInCube(s, p) && AllInCube(s, q) && |v| == |p| && |w| == |q|
    ensures Scatter(faces, s, p + q, v + w) == Scatter(Scatter(faces, s, p, v), s, q, w)
    decreases |q|
  {
    if |q| == 0 {
      assert p + q == p && v + w == v;
    } else {
      var n := |q| - 1;
      assert (p + q)[..|p + q| - 1] == p + q[..n];
      assert (v + w)[..|v + w| - 1] == v + w[..n];
      ScatterAppend(faces, s, p, v, q[..n], w[..n]);
    }
  }
}
