/** Paths made of segments, one segment per face a layer turn crosses,
    and the loops that read a segment into a list or write a list back
    along one. */
module CubePathLoops {
  import opened CubeCells
  import opened CubeTurns

  /** The segments laid end to end. */
  function Flatten(segs: seq<seq<Cell>>): (p: seq<Cell>)
    decreases |segs|
  {
    if |segs| == 0 then [] else Flatten(segs[..|segs| - 1]) + segs[|segs| - 1]
  }

  predicate AllSegments(s: int, segs: seq<seq<Cell>>)
  {
    forall i :: 0 <= i < |segs| ==> AllInCube(s, segs[i])
  }

  lemma {:induction false} FlattenInCube(s: int, segs: seq<seq<Cell>>)
    requires AllSegments(s, segs)
    ensures AllInCube(s, Flatten(segs))
    decreases |segs|
  {
    if |segs| > 0 {
      FlattenInCube(s, segs[..|segs| - 1]);
      AllInCubeAppend(s, Flatten(segs[..|segs| - 1]), segs[|segs| - 1]);
    }
  }

  /** One more segment of a prefix. */
  lemma FlattenSnoc(segs: seq<seq<Cell>>, n: int)
    requires 0 <= n < |segs|
    ensures Flatten(segs[..n + 1]) == Flatten(segs[..n]) + segs[n]
  {
    assert segs[..n + 1][..n] == segs[..n];
  }

  /** Four segments laid end to end. */
  lemma FlattenFour(segs: seq<seq<Cell>>)
    requires |segs| == 4
    ensures Flatten(segs) == segs[0] + segs[1] + segs[2] + segs[3]
  {
    FlattenSnoc(segs, 0);
    FlattenSnoc(segs, 1);
    FlattenSnoc(segs, 2);
    FlattenSnoc(segs, 3);
    assert segs[..0] == [] && segs[..4] == segs;
  }

  /** Segments each free of repeats and lying on faces of their own make a
      path free of repeats. */
  lemma {:induction false} FlattenDistinct(segs: seq<seq<Cell>>, faces: seq<int>)
    requires |faces| == |segs|
    requires forall i :: 0 <= i < |segs| ==> Distinct(segs[i])
    requires forall i, k :: 0 <= i < |segs| && 0 <= k < |segs[i]| ==> segs[i][k].face == faces[i]
    requires forall i, j :: 0 <= i < j < |faces| ==> faces[i] != faces[j]
    ensures Distinct(Flatten(segs))
    ensures forall k :: 0 <= k < |Flatten(segs)| ==> Flatten(segs)[k].face in faces
    decreases |segs|
  {
    if |segs| > 0 {
      var n := |segs| - 1;
      var front := Flatten(segs[..n]);
      FlattenDistinct(segs[..n], faces[..n]);
      var p := front + segs[n];
      forall a, b | 0 <= a < b < |p|
        ensures p[a] != p[b]
      {
        if b >= |front| && a < |front| {
          assert p[a].face in faces[..n];
          assert p[b].face == faces[n];
        }
      }
      forall k | 0 <= k < |p|
        ensures p[k].face in faces
      {
        if k < |front| {
          assert p[k].face in faces[..n];
        } else {
          assert p[k] == segs[n][k - |front|];
        }
      }
    }
  }

  /** Reading a path backwards reads the same stickers. */
  lemma GatherReverse(faces: Faces, s: int, p: seq<Cell>, q: seq<Cell>)
    requires Shaped(faces, s) && AllInCube(s, p) && |q| == |p|
    requires forall k :: 0 <= k < |p| ==> q[k] == p[|p| - 1 - k]
    ensures AllInCube(s, q)
    ensures multiset(Gather(faces, s, q)) == multiset(Gather(faces, s, p))
    decreases |p|
  {
    assert AllInCube(s, q) by {
      forall k | 0 <= k < |q|
        ensures InCube(s, q[k])
      {
        assert q[k] == p[|p| - 1 - k];
      }
    }
    if |p| > 0 {
      var n := |p| - 1;
      var gp, gq := Gather(faces, s, p), Gather(faces, s, q);
      GatherReverse(faces, s, p[1..], q[..n]);
      assert p == [p[0]] + p[1..];
      assert gp == [gp[0]] + Gather(faces, s, p[1..]);
      assert gq == Gather(faces, s, q[..n]) + [gq[n]];
    }
  }

  /** The list after `push`ing the stickers of path `p` in order. */
  method ReadPath(faces: Faces, s: int, p: seq<Cell>, list0: seq<Sticker>) returns (list: seq<Sticker>)
    requires Shaped(faces, s) && AllInCube(s, p)
    ensures list == list0 + Gather(faces, s, p)
  {
    list := list0;
    var j := 0;
    while j < |p|
      invariant 0 <= j <= |p|
      invariant list == list0 + Gather(faces, s, p[..j])
    {
      assert p[..j + 1][..j] == p[..j];
      list := list + [faces[p[j].face][p[j].row][p[j].col]];
      j := j + 1;
    }
    assert p[..j] == p;
  }

  /** The faces after writing `list.shift()` into each cell of `p` in turn,
      and what is left of the list. */
  method WritePath(faces: Faces, s: int, p: seq<Cell>, list: seq<Sticker>) returns (r: Faces, rest: seq<Sticker>)
    requires Shaped(faces, s) && AllInCube(s, p) && |list| >= |p|
    ensures rest == list[|p|..]
    ensures r == Scatter(faces, s, p, list[..|p|])
  {
    ghost var v := list[..|p|];
    r := faces;
    rest := list;
    var j := 0;
    while j < |p|
      invariant 0 <= j <= |p|
      invariant rest == list[j..]
      invariant r == Scatter(faces, s, p[..j], v[..j])
    {
      assert p[..j + 1][..j] == p[..j] && v[..j + 1][..j] == v[..j];
      r := Put(r, s, p[j], rest[0]);
      rest := rest[1..];
      j := j + 1;
    }
    assert p[..j] == p && v[..j] == v;
  }
}
