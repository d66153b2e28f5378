/** List rotation, the sticker multiset, and turning a path: read it,
    rotate the list, write it back along the same path. */
module CubeTurns {
  import opened CubeCells

  /** A positive multiple of `n` is at least `n`. */
  lemma {:induction false} MulAtLeast(n: int, d: int)
    requires n > 0 && d >= 1
    ensures n * d >= n
    decreases d
  {
    if d > 1 {
      MulAtLeast(n, d - 1);
      assert n * d == n * (d - 1) + n;
    }
  }

  /** `x % n` is `r` whenever `x = n*q + r` with `0 <= r < n`. */
  lemma ModUnique(x: int, n: int, q: int, r: int)
    requires n > 0 && 0 <= r < n && x == n * q + r
    ensures x % n == r
  {
    var q0 := x / n;
    var d := q - q0;
    assert x == n * q0 + x % n;
    assert n * d == n * q - n * q0;
    assert n * d == x % n - r;
    if d >= 1 {
      MulAtLeast(n, d);
    } else if d <= -1 {
      MulAtLeast(n, -d);
    }
  }

  /** Shifting by a remainder is shifting by the number. */
  lemma ModSub(x: int, a: int, n: int)
    requires n > 0
    ensures (x % n - a) % n == (x - a) % n
  {
    var q := x / n;
    var q2 := (x - a) / n;
    assert x == n * q + x % n;
    assert x - a == n * q2 + (x - a) % n;
    assert n * (q2 - q) == n * q2 - n * q;
    ModUnique(x % n - a, n, q2 - q, (x - a) % n);
  }

  /** `x` counted around a cycle of `n` places: the slot in `0..n-1`
      that `x` lands on. */
  function Wrap(x: int, n: int): (r: int)
    requires n > 0
    ensures 0 <= r < n
    decreases if x < 0 then n - x else x
  {
    if x < 0 then Wrap(x + n, n) else if x >= n then Wrap(x - n, n) else x
  }

  lemma {:induction false} WrapIsMod(x: int, n: int)
    requires n > 0
    ensures Wrap(x, n) == x % n
    decreases if x < 0 then n - x else x
  {
    if x < 0 {
      WrapIsMod(x + n, n);
      ModSub(x, -n, n);
      ModUnique(x % n + n, n, 1, x % n);
    } else if x >= n {
      WrapIsMod(x - n, n);
      ModSub(x, n, n);
      ModUnique(x % n - n, n, -1, x % n);
    }
  }

  /** The slot `m` places before slot `j` on a cycle of `n`. */
  function Back(j: int, m: int, n: int): (r: int)
    requires n > 0
    ensures 0 <= r < n
  {
    Wrap(j - m, n)
  }

  /** Going back `y` and then `x` more places on a cycle of `n` is going
      back `x + y`. */
  lemma WrapCompose(l: int, x: int, y: int, z: int, n: int)
    requires n > 0 && z == x + y
    ensures Wrap(Wrap(l - y, n) - x, n) == Wrap(l - z, n)
  {
    WrapIsMod(l - y, n);
    WrapIsMod(Wrap(l - y, n) - x, n);
    WrapIsMod(l - z, n);
    ModSub(l - y, x, n);
    assert l - y - x == l - z;
  }

  /** Going back a whole number of cycles lands where it started. */
  lemma WrapWhole(l: int, m: int, n: int)
    requires n > 0 && 0 <= l < n && m % n == 0
    ensures Wrap(l - m, n) == l
  {
    var t := m / n;
    assert m == n * t;
    assert n * -t == -(n * t);
    WrapIsMod(l - m, n);
    ModUnique(l - m, n, -t, l);
  }

  /** `m` copies of `d`, added one at a time. */
  function Times(m: int, d: int): (r: int)
    decreases if m < 0 then -m else m
  {
    if m == 0 then 0 else if m > 0 then Times(m - 1, d) + d else Times(m + 1, d) - d
  }

  lemma {:induction false} TimesIsMul(m: int, d: int)
    ensures Times(m, d) == m * d
    decreases if m < 0 then -m else m
  {
    if m > 0 {
      TimesIsMul(m - 1, d);
    } else if m < 0 {
      TimesIsMul(m + 1, d);
    }
  }

  /** The list moved `m` places to the right, cyclically: slot `j` gets
      the item `m` places before it. A negative `m` moves it left. */
  function RotRight<T>(l: seq<T>, m: int): (r: seq<T>)
    ensures |r| == |l|
  {
    seq(|l|, j requires 0 <= j < |l| => l[Back(j, m, |l|)])
  }

  /** The rotated list is the last `m % |l|` items followed by the rest. */
  lemma RotRightSplit<T>(l: seq<T>, m: int)
    requires |l| > 0
    ensures RotRight(l, m) == l[|l| - m % |l|..] + l[..|l| - m % |l|]
  {
    var n := |l|;
    var k := m % n;
    var t := m / n;
    assert m == n * t + k;
    forall j | 0 <= j < n
      ensures RotRight(l, m)[j] == (l[n - k..] + l[..n - k])[j]
    {
      WrapIsMod(j - m, n);
      if j < k {
        assert n * (-t - 1) == -(n * t) - n;
        ModUnique(j - m, n, -t - 1, j - k + n);
      } else {
        assert n * -t == -(n * t);
        ModUnique(j - m, n, -t, j - k);
      }
    }
  }

  /** Rotating by `a` and then by `b` is rotating by `a + b`. */
  lemma RotRightCompose<T>(l: seq<T>, a: int, b: int, sum: int)
    requires sum == a + b
    ensures RotRight(RotRight(l, a), b) == RotRight(l, sum)
  {
    forall j | 0 <= j < |l|
      ensures RotRight(RotRight(l, a), b)[j] == RotRight(l, sum)[j]
    {
      WrapCompose(j, a, b, sum, |l|);
    }
  }

  /** A rotation by a multiple of the length changes nothing. */
  lemma RotRightWhole<T>(l: seq<T>, m: int)
    requires |l| == 0 || m % |l| == 0
    ensures RotRight(l, m) == l
  {
    forall j | 0 <= j < |l|
      ensures RotRight(l, m)[j] == l[j]
    {
      WrapWhole(j, m, |l|);
    }
  }

  /** A rotation keeps the items. */
  lemma RotRightMultiset<T>(l: seq<T>, m: int)
    ensures multiset(RotRight(l, m)) == multiset(l)
  {
    if |l| > 0 {
      var k := m % |l|;
      RotRightSplit(l, m);
      assert l == l[..|l| - k] + l[|l| - k..];
    }
  }

  /** A list's items are those of all but its last, plus its last. */
  lemma MultisetSnoc<T>(l: seq<T>)
    requires |l| > 0
    ensures multiset(l) == multiset(l[..|l| - 1]) + multiset{l[|l| - 1]}
  {
    assert l == l[..|l| - 1] + [l[|l| - 1]];
  }

  /** The union of `m(x)` over the items `x` of `xs`. */
  function Total<X, T>(xs: seq<X>, m: X -> multiset<T>): multiset<T>
    decreases |xs|
  {
    if |xs| == 0 then multiset{} else Total(xs[..|xs| - 1], m) + m(xs[|xs| - 1])
  }

  /** Replacing one item trades its share of the union for the new one's. */
  lemma {:induction false} TotalUpdate<X, T>(xs: seq<X>, i: int, x: X, m: X -> multiset<T>)
    requires 0 <= i < |xs|
    ensures Total(xs[i := x], m) + m(xs[i]) == Total(xs, m) + m(x)
    decreases |xs|
  {
    var n := |xs| - 1;
    var upd := xs[i := x];
    if i < n {
      assert upd[..n] == xs[..n][i := x];
      TotalUpdate(xs[..n], i, x, m);
      calc {
        Total(upd, m) + m(xs[i]);
        Total(upd[..n], m) + m(xs[n]) + m(xs[i]);
        Total(xs[..n][i := x], m) + m(xs[..n][i]) + m(xs[n]);
        Total(xs[..n], m) + m(x) + m(xs[n]);
        Total(xs, m) + m(x);
      }
    } else {
      assert upd[..n] == xs[..n];
    }
  }

  function RowStickers(row: seq<Sticker>): multiset<Sticker>
  {
    multiset(row)
  }

  /** The stickers of one face. */
  function FaceStickers(face: seq<seq<Sticker>>): multiset<Sticker>
  {
    Total(face, RowStickers)
  }

  /** All stickers of the cube, with their multiplicities. */
  function Stickers(faces: Faces): multiset<Sticker>
  {
    Total(faces, FaceStickers)
  }

  /** Three nested trades compose: whatever the outer part gave up in
      exchange for the inner one comes back as the innermost exchange. */
  lemma TradeThrough<T>(all': multiset<T>, all: multiset<T>, part: multiset<T>, part': multiset<T>,
                        piece: multiset<T>, piece': multiset<T>, out: multiset<T>, inn: multiset<T>)
    requires all' + part == all + part'
    requires part' + piece == part + piece'
    requires piece' + out == piece + inn
    ensures all' + out == all + inn
  {
    forall x
      ensures (all' + out)[x] == (all + inn)[x]
    {
      assert (all' + part)[x] == (all + part')[x];
      assert (part' + piece)[x] == (part + piece')[x];
      assert (piece' + out)[x] == (piece + inn)[x];
    }
  }

  /** A trade of equal parts changes nothing. */
  lemma TradeEven<T>(now: multiset<T>, start: multiset<T>, gave: multiset<T>)
    requires now + gave == start + gave
    ensures now == start
  {
    forall x
      ensures now[x] == start[x]
    {
      assert (now + gave)[x] == (start + gave)[x];
    }
  }

  /** Two trades in a row add up. */
  lemma TradeAfter<T>(now: multiset<T>, mid: multiset<T>, start: multiset<T>,
                      gave: multiset<T>, got: multiset<T>, out: multiset<T>, inn: multiset<T>)
    requires now + out == mid + inn
    requires mid + gave == start + got
    ensures now + (gave + out) == start + (got + inn)
  {
    forall x
      ensures (now + (gave + out))[x] == (start + (got + inn))[x]
    {
      assert (now + out)[x] == (mid + inn)[x];
      assert (mid + gave)[x] == (start + got)[x];
    }
  }

  /** One assignment trades the overwritten sticker for the new one. */
  lemma PutStickers(faces: Faces, s: int, c: Cell, v: Sticker)
    requires Shaped(faces, s) && InCube(s, c)
    ensures Stickers(Put(faces, s, c, v)) + multiset{At(faces, s, c)} == Stickers(faces) + multiset{v}
  {
    var face := faces[c.face];
    var row := face[c.row];
    var row' := row[c.col := v];
    var face' := face[c.row := row'];
    var faces' := faces[c.face := face'];
    assert Put(faces, s, c, v) == faces';
    var a := At(faces, s, c);
    assert a == row[c.col];
    assert RowStickers(row') + multiset{a} == RowStickers(row) + multiset{v} by {
      assert row == row[..c.col] + [a] + row[c.col + 1..];
      assert row' == row[..c.col] + [v] + row[c.col + 1..];
    }
    TotalUpdate(face, c.row, row', RowStickers);
    TotalUpdate(faces, c.face, face', FaceStickers);
    TradeThrough(Stickers(faces'), Stickers(faces), FaceStickers(face), FaceStickers(face'),
      RowStickers(row), RowStickers(row'), multiset{a}, multiset{v});
  }

  /** A write along distinct cells trades the stickers it overwrote for the
      ones it wrote. */
  lemma {:induction false} ScatterStickers(faces: Faces, s: int, p: seq<Cell>, v: seq<Sticker>)
    requires Shaped(faces, s) && AllInCube(s, p) && |v| == |p| && Distinct(p)
    ensures Stickers(Scatter(faces, s, p, v)) + multiset(Gather(faces, s, p)) == Stickers(faces) + multiset(v)
    decreases |p|
  {
    if |p| > 0 {
      var n := |p| - 1;
      var before := Scatter(faces, s, p[..n], v[..n]);
      var after := Scatter(faces, s, p, v);
      var u := At(faces, s, p[n]);
      var g0 := Gather(faces, s, p[..n]);
      assert Stickers(after) + multiset{u} == Stickers(before) + multiset{v[n]} by {
        assert after == Put(before, s, p[n], v[n]);
        PutStickers(before, s, p[n], v[n]);
        ScatterOff(faces, s, p[..n], v[..n], p[n]);
      }
      assert Stickers(before) + multiset(g0) == Stickers(faces) + multiset(v[..n]) by {
        ScatterStickers(faces, s, p[..n], v[..n]);
      }
      assert multiset(Gather(faces, s, p)) == multiset(g0) + multiset{u} by {
        GatherPrefix(faces, s, p, n);
        MultisetSnoc(Gather(faces, s, p));
      }
      MultisetSnoc(v);
      TradeAfter(Stickers(after), Stickers(before), Stickers(faces),
        multiset(g0), multiset(v[..n]), multiset{u}, multiset{v[n]});
    }
  }

  /** Turn a path by `m` places: read it, rotate the list, write it back. */
  function TurnPath(faces: Faces, s: int, p: seq<Cell>, m: int): (r: Faces)
    requires Shaped(faces, s) && AllInCube(s, p)
    ensures Shaped(r, s)
  {
    Scatter(faces, s, p, RotRight(Gather(faces, s, p), m))
  }

  /** Two turns of one path add up. */
  lemma TurnPathCompose(faces: Faces, s: int, p: seq<Cell>, a: int, b: int, sum: int)
    requires Shaped(faces, s) && AllInCube(s, p) && Distinct(p) && sum == a + b
    ensures TurnPath(TurnPath(faces, s, p, a), s, p, b) == TurnPath(faces, s, p, sum)
  {
    var g := Gather(faces, s, p);
    GatherScatter(faces, s, p, RotRight(g, a));
    RotRightCompose(g, a, b, sum);
    ScatterTwice(faces, s, p, RotRight(g, a), RotRight(g, sum));
  }

  /** A turn by a whole number of lengths changes nothing. */
  lemma TurnPathWhole(faces: Faces, s: int, p: seq<Cell>, m: int)
    requires Shaped(faces, s) && AllInCube(s, p) && Distinct(p)
    requires |p| == 0 || m % |p| == 0
    ensures TurnPath(faces, s, p, m) == faces
  {
    RotRightWhole(Gather(faces, s, p), m);
    ScatterGather(faces, s, p);
  }

  /** Turns of disjoint paths commute. */
  lemma TurnPathCommute(faces: Faces, s: int, p: seq<Cell>, a: int, q: seq<Cell>, b: int)
    requires Shaped(faces, s) && AllInCube(s, p) && AllInCube(s, q)
    requires Distinct(p) && Distinct(q) && Disjoint(p, q)
    ensures TurnPath(TurnPath(faces, s, p, a), s, q, b) == TurnPath(TurnPath(faces, s, q, b), s, p, a)
  {
    var v := RotRight(Gather(faces, s, p), a);
    var w := RotRight(Gather(faces, s, q), b);
    GatherOff(faces, s, p, v, q);
    assert Disjoint(q, p);
    GatherOff(faces, s, q, w, p);
    ScatterCommute(faces, s, p, v, q, w);
  }

  /** A turn keeps the cube's stickers. */
  lemma TurnPathStickers(faces: Faces, s: int, p: seq<Cell>, m: int)
    requires Shaped(faces, s) && AllInCube(s, p) && Distinct(p)
    ensures Stickers(TurnPath(faces, s, p, m)) == Stickers(faces)
  {
    var g := Gather(faces, s, p);
    RotRightMultiset(g, m);
    ScatterStickers(faces, s, p, RotRight(g, m));
    TradeEven(Stickers(TurnPath(faces, s, p, m)), Stickers(faces), multiset(g));
  }

  /** After a turn by `m`, cell `p[k]` holds what cell `p[k - m]` held,
      counting around the path. */
  lemma TurnPathAt(faces: Faces, s: int, p: seq<Cell>, m: int, k: int)
    requires Shaped(faces, s) && AllInCube(s, p) && Distinct(p) && 0 <= k < |p|
    ensures At(TurnPath(faces, s, p, m), s, p[k]) == At(faces, s, p[Wrap(k - m, |p|)])
  {
    ScatterAt(faces, s, p, RotRight(Gather(faces, s, p), m), k);
  }

  /** A turn leaves every cell off the path alone. */
  lemma TurnPathOff(faces: Faces, s: int, p: seq<Cell>, m: int, c: Cell)
    requires Shaped(faces, s) && AllInCube(s, p) && InCube(s, c)
    requires forall k :: 0 <= k < |p| ==> p[k] != c
    ensures At(TurnPath(faces, s, p, m), s, c) == At(faces, s, c)
  {
    ScatterOff(faces, s, p, RotRight(Gather(faces, s, p), m), c);
  }

  /** Every path of a list lies in the cube. */
  predicate AllPaths(s: int, ps: seq<seq<Cell>>)
  {
    forall i :: 0 <= i < |ps| ==> AllInCube(s, ps[i])
  }

  /** Every path of a list is non-empty and visits no cell twice, and no
      two paths of the list share a cell. */
  predicate Separate(ps: seq<seq<Cell>>)
  {
    && (forall i :: 0 <= i < |ps| ==> |ps[i]| > 0 && Distinct(ps[i]))
    && (forall i, j :: 0 <= i < j < |ps| ==> Disjoint(ps[i], ps[j]))
  }

  /** Turn path `ps[0]` by `ms[0]` places, then `ps[1]` by `ms[1]`, and so on. */
  function TurnPaths(faces: Faces, s: int, ps: seq<seq<Cell>>, ms: seq<int>): (r: Faces)
    requires Shaped(faces, s) && AllPaths(s, ps) && |ms| == |ps|
    ensures Shaped(r, s)
  {
    if |ps| == 0 then faces
    else TurnPath(TurnPaths(faces, s, ps[..|ps| - 1], ms[..|ms| - 1]), s, ps[|ps| - 1], ms[|ms| - 1])
  }

  /** Turning paths leaves every cell on none of them alone. */
  lemma {:induction false} TurnPathsOff(faces: Faces, s: int, ps: seq<seq<Cell>>, ms: seq<int>, c: Cell)
    requires Shaped(faces, s) && AllPaths(s, ps) && |ms| == |ps| && InCube(s, c)
    requires forall i, k :: 0 <= i < |ps| && 0 <= k < |ps[i]| ==> ps[i][k] != c
    ensures At(TurnPaths(faces, s, ps, ms), s, c) == At(faces, s, c)
  {
    if |ps| > 0 {
      var n := |ps| - 1;
      TurnPathsOff(faces, s, ps[..n], ms[..n], c);
      TurnPathOff(TurnPaths(faces, s, ps[..n], ms[..n]), s, ps[n], ms[n], c);
    }
  }

  /** A prefix of a list of separate paths is separate. */
  lemma SeparatePrefix(s: int, ps: seq<seq<Cell>>, n: int)
    requires AllPaths(s, ps) && Separate(ps) && 0 <= n <= |ps|
    ensures AllPaths(s, ps[..n]) && Separate(ps[..n])
  {
    assert forall i :: 0 <= i < n ==> ps[..n][i] == ps[i];
  }

  /** Turning the paths before the last leaves the last path's stickers
      as they were. */
  lemma TurnPathsBeforeLast(faces: Faces, s: int, ps: seq<seq<Cell>>, ms: seq<int>)
    requires Shaped(faces, s) && AllPaths(s, ps) && |ms| == |ps| && Separate(ps) && |ps| > 0
    ensures Gather(TurnPaths(faces, s, ps[..|ps| - 1], ms[..|ps| - 1]), s, ps[|ps| - 1]) == Gather(faces, s, ps[|ps| - 1])
  {
    var n := |ps| - 1;
    var before := TurnPaths(faces, s, ps[..n], ms[..n]);
    forall k | 0 <= k < |ps[n]|
      ensures At(before, s, ps[n][k]) == At(faces, s, ps[n][k])
    {
      forall i, k' | 0 <= i < n && 0 <= k' < |ps[..n][i]|
        ensures ps[..n][i][k'] != ps[n][k]
      {
        assert Disjoint(ps[i], ps[n]);
      }
      TurnPathsOff(faces, s, ps[..n], ms[..n], ps[n][k]);
    }
  }

  /** Reading path `j` after turning separate paths gives what it held
      before, rotated right by `ms[j]`. */
  lemma {:induction false} TurnPathsGather(faces: Faces, s: int, ps: seq<seq<Cell>>, ms: seq<int>, j: int)
    requires Shaped(faces, s) && AllPaths(s, ps) && |ms| == |ps| && Separate(ps) && 0 <= j < |ps|
    ensures Gather(TurnPaths(faces, s, ps, ms), s, ps[j]) == RotRight(Gather(faces, s, ps[j]), ms[j])
  {
    var n := |ps| - 1;
    var before := TurnPaths(faces, s, ps[..n], ms[..n]);
    var v := RotRight(Gather(before, s, ps[n]), ms[n]);
    assert TurnPaths(faces, s, ps, ms) == Scatter(before, s, ps[n], v);
    if j == n {
      TurnPathsBeforeLast(faces, s, ps, ms);
      GatherScatter(before, s, ps[n], v);
    } else {
      assert Disjoint(ps[n], ps[j]) by {
        assert Disjoint(ps[j], ps[n]);
      }
      GatherOff(before, s, ps[n], v, ps[j]);
      SeparatePrefix(s, ps, n);
      assert ps[..n][j] == ps[j] && ms[..n][j] == ms[j];
      TurnPathsGather(faces, s, ps[..n], ms[..n], j);
    }
  }

  /** Turning separate paths by `a` and then by `b` turns each by the sum. */
  lemma TurnPathsCompose(faces: Faces, s: int, ps: seq<seq<Cell>>, a: seq<int>, b: seq<int>, sum: seq<int>)
    requires Shaped(faces, s) && AllPaths(s, ps) && Separate(ps)
    requires |a| == |ps| && |b| == |ps| && |sum| == |ps|
    requires forall i :: 0 <= i < |ps| ==> sum[i] == a[i] + b[i]
    ensures TurnPaths(TurnPaths(faces, s, ps, a), s, ps, b) == TurnPaths(faces, s, ps, sum)
  {
    var once := TurnPaths(faces, s, ps, a);
    var g := TurnPaths(once, s, ps, b);
    var h := TurnPaths(faces, s, ps, sum);
    forall c | InCube(s, c)
      ensures At(g, s, c) == At(h, s, c)
    {
      if j, l :| 0 <= j < |ps| && 0 <= l < |ps[j]| && ps[j][l] == c {
        TurnPathsGather(once, s, ps, b, j);
        TurnPathsGather(faces, s, ps, a, j);
        TurnPathsGather(faces, s, ps, sum, j);
        RotRightCompose(Gather(faces, s, ps[j]), a[j], b[j], sum[j]);
        assert Gather(g, s, ps[j]) == Gather(h, s, ps[j]);
        assert Gather(g, s, ps[j])[l] == At(g, s, c);
        assert Gather(h, s, ps[j])[l] == At(h, s, c);
      } else {
        TurnPathsOff(once, s, ps, b, c);
        TurnPathsOff(faces, s, ps, a, c);
        TurnPathsOff(faces, s, ps, sum, c);
      }
    }
    FacesEqual(g, h, s);
  }

  /** Turning every path by a whole number of its lengths changes nothing. */
  lemma TurnPathsWhole(faces: Faces, s: int, ps: seq<seq<Cell>>, ms: seq<int>)
    requires Shaped(faces, s) && AllPaths(s, ps) && |ms| == |ps| && Separate(ps)
    requires forall i :: 0 <= i < |ps| ==> ms[i] % |ps[i]| == 0
    ensures TurnPaths(faces, s, ps, ms) == faces
  {
    var g := TurnPaths(faces, s, ps, ms);
    forall c | InCube(s, c)
      ensures At(g, s, c) == At(faces, s, c)
    {
      if j, l :| 0 <= j < |ps| && 0 <= l < |ps[j]| && ps[j][l] == c {
        TurnPathsGather(faces, s, ps, ms, j);
        RotRightWhole(Gather(faces, s, ps[j]), ms[j]);
        assert Gather(g, s, ps[j]) == Gather(faces, s, ps[j]);
        assert Gather(g, s, ps[j])[l] == At(g, s, c);
        assert Gather(faces, s, ps[j])[l] == At(faces, s, c);
      } else {
        TurnPathsOff(faces, s, ps, ms, c);
      }
    }
    FacesEqual(g, faces, s);
  }

  /** Turning paths keeps the cube's stickers. */
  lemma {:induction false} TurnPathsStickers(faces: Faces, s: int, ps: seq<seq<Cell>>, ms: seq<int>)
    requires Shaped(faces, s) && AllPaths(s, ps) && |ms| == |ps| && Separate(ps)
    ensures Stickers(TurnPaths(faces, s, ps, ms)) == Stickers(faces)
  {
    if |ps| > 0 {
      var n := |ps| - 1;
      SeparatePrefix(s, ps, n);
      TurnPathsStickers(faces, s, ps[..n], ms[..n]);
      TurnPathStickers(TurnPaths(faces, s, ps[..n], ms[..n]), s, ps[n], ms[n]);
    }
  }
}
