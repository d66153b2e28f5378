/** Nested square arrays of random numbers and their depth (genNDArray.js).
    A value in the program is either a number or an array of values. */
module NdArray {
  import opened Wrappers

  datatype Grid = Leaf(value: int) | Node(children: seq<Grid>)

  /** The draw behind each leaf: `Math.random()` is a number in [0, 1),
      given here as a function of the leaf's position in the grid. */
  ghost predicate Draws(rand: seq<nat> -> real)
  {
    forall p :: 0.0 <= rand(p) < 1.0
  }

  /** `Array.from({length: l})` clamps a negative length to zero. */
  function Length(l: int): nat
  {
    if l < 0 then 0 else l
  }

  /** `generateNDimensionalSquareGrid(n, l)` for the leaves drawn by `rand`
      at the positions below `path`: a leaf `⌊100 · r⌋` at dimension zero,
      otherwise `l` grids of dimension `n - 1`. A negative `n` counts down
      without end in the program, so `n` is a natural number here. */
  function Generate(n: nat, l: int, rand: seq<nat> -> real, path: seq<nat>): Grid
    decreases n
  {
    if n != 0 then
      Node(seq(Length(l), i requires 0 <= i < Length(l) => Generate(n - 1, l, rand, path + [i])))
    else
      Leaf((rand(path) * 100.0).Floor)
  }

  /** A grid of dimension `n` and side `l` whose leaves lie in [0, 99]. */
  ghost predicate Shaped(g: Grid, n: nat, l: int)
    decreases n
  {
    if n == 0 then g.Leaf? && 0 <= g.value <= 99
    else g.Node? && |g.children| == Length(l) &&
         forall i :: 0 <= i < |g.children| ==> Shaped(g.children[i], n - 1, l)
  }

  /** A generated grid has the requested shape, and every leaf is an
      integer from 0 to 99. */
  lemma {:induction false} GenerateShaped(n: nat, l: int, rand: seq<nat> -> real, path: seq<nat>)
    requires Draws(rand)
    decreases n
    ensures Shaped(Generate(n, l, rand, path), n, l)
  {
    var g := Generate(n, l, rand, path);
    if n == 0 {
      var r := rand(path);
      assert 0.0 <= r * 100.0 < 100.0;
    } else {
      forall i | 0 <= i < |g.children|
        ensures Shaped(g.children[i], n - 1, l)
      {
        assert g.children[i] == Generate(n - 1, l, rand, path + [i]);
        GenerateShaped(n - 1, l, rand, path + [i]);
      }
    }
  }

  const NoProperty := "TypeError: Cannot read properties of undefined"

  /** `findDepth`: zero for a number, one more than the depth of the first
      element for an array. An empty array hands `undefined` to the next
      call, which then fails to index it. */
  function FindDepth(g: Grid): Result<nat>
  {
    match g
    case Leaf(_) => Ok(0)
    case Node(cs) =>
      if |cs| == 0 then Err(NoProperty)
      else
        match FindDepth(cs[0])
        case Ok(d) => Ok(1 + d)
        case Err(e) => Err(e)
  }

  /** The depth of a grid of dimension `n` and positive side is `n`; with
      no side at all, any array in it makes `findDepth` fail. */
  lemma {:induction false} ShapedDepth(g: Grid, n: nat, l: int)
    requires Shaped(g, n, l)
    decreases n
    ensures l >= 1 ==> FindDepth(g) == Ok(n)
    ensures l < 1 && n >= 1 ==> FindDepth(g) == Err(NoProperty)
  {
    if n > 0 && l >= 1 {
      ShapedDepth(g.children[0], n - 1, l);
    }
  }

  /** `findDepth(generateNDimensionalSquareGrid(n, l))` is `n` for every
      draw of the leaves once `l` is at least one. */
  lemma GeneratedDepth(n: nat, l: int, rand: seq<nat> -> real)
    requires Draws(rand)
    ensures l >= 1 ==> FindDepth(Generate(n, l, rand, [])) == Ok(n)
    ensures l < 1 && n >= 1 ==> FindDepth(Generate(n, l, rand, [])).Err?
  {
    GenerateShaped(n, l, rand, []);
    ShapedDepth(Generate(n, l, rand, []), n, l);
  }
}
