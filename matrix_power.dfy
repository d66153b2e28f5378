/** Matrix powers by repeated squaring with a memo of squares
    (eulerproblem2.js). Matrices are JavaScript arrays of rows; the
    arithmetic behind them is stated once, on 2×2 matrices as values. */
module MatrixPower {
  import opened Wrappers

  /** A matrix as the program stores it: an array of rows. */
  type Matrix = seq<seq<int>>

  /** Every row of `a` has `n` entries. */
  predicate Rows(a: Matrix, n: int)
  {
    forall i :: 0 <= i < |a| ==> |a[i]| == n
  }

  /** Σ over `k < n` of `a[i][k] · b[k][j]`. */
  function Dot(a: Matrix, b: Matrix, i: int, j: int, n: nat): int
    requires 0 <= i < |a| && n <= |a[i]| && n <= |b| && 0 <= j
    requires forall k :: 0 <= k < |b| ==> j < |b[k]|
  {
    if n == 0 then 0 else Dot(a, b, i, j, n - 1) + a[i][n - 1] * b[n - 1][j]
  }

  /** The product of an m×n and an n×p matrix, entry by entry. */
  function Product(a: Matrix, b: Matrix): (r: Matrix)
    requires |a| > 0 && |b| > 0 && Rows(a, |b|) && Rows(b, |b[0]|)
    ensures |r| == |a| && Rows(r, |b[0]|)
  {
    seq(|a|, i requires 0 <= i < |a| =>
      seq(|b[0]|, j requires 0 <= j < |b[0]| => Dot(a, b, i, j, |b|)))
  }

  const Incompatible: string := "error: incompatible matrices"

  /** `matrixMult`: the product when the inner dimensions agree, and the
      error string otherwise. The shapes are read from the first rows. */
  method MatrixMult(mat1: Matrix, mat2: Matrix) returns (r: Result<Matrix>)
    requires |mat1| > 0 && |mat2| > 0
    requires Rows(mat1, |mat1[0]|) && Rows(mat2, |mat2[0]|)
    ensures |mat1[0]| != |mat2| ==> r == Err(Incompatible)
    ensures |mat1[0]| == |mat2| ==> r == Ok(Product(mat1, mat2))
  {
    var m, n := |mat1|, |mat1[0]|;
    var n1, p := |mat2|, |mat2[0]|;
    if n != n1 {
      return Err(Incompatible);
    }
    var arr: Matrix := [];
    for i := 0 to m
      invariant arr == Product(mat1, mat2)[..i]
    {
      var tempArr: seq<int> := [];
      for j := 0 to p
        invariant tempArr == Product(mat1, mat2)[i][..j]
      {
        var total := 0;
        for k := 0 to n
          invariant total == Dot(mat1, mat2, i, j, k)
        {
          total := total + mat1[i][k] * mat2[k][j];
        }
        assert Product(mat1, mat2)[i][j] == total;
        tempArr := tempArr + [total];
      }
      assert tempArr == Product(mat1, mat2)[i];
      arr := arr + [tempArr];
    }
    assert arr == Product(mat1, mat2);
    return Ok(arr);
  }

  // ---------------------------------------------------------------
  // 2×2 matrices as values

  datatype M2 = M2(a: int, b: int, c: int, d: int)

  /** The array form `[[a, b], [c, d]]`. */
  function Grid(x: M2): (g: Matrix)
    ensures |g| == 2 && Rows(g, 2)
  {
    [[x.a, x.b], [x.c, x.d]]
  }

  function Mul(x: M2, y: M2): M2
  {
    M2(x.a * y.a + x.b * y.c, x.a * y.b + x.b * y.d,
       x.c * y.a + x.d * y.c, x.c * y.b + x.d * y.d)
  }

  const One: M2 := M2(1, 0, 0, 1)

  /** Every entry doubled. */
  function Twice(x: M2): M2
  {
    M2(2 * x.a, 2 * x.b, 2 * x.c, 2 * x.d)
  }

  /** `x` to the power `n`. */
  function Pow(x: M2, n: nat): M2
  {
    if n == 0 then One else Mul(Pow(x, n - 1), x)
  }

  function Pow2(i: nat): nat
  {
    if i == 0 then 1 else 2 * Pow2(i - 1)
  }

  lemma DotTwo(a: Matrix, b: Matrix, i: int, j: int)
    requires 0 <= i < |a| && 2 <= |a[i]| && |b| == 2 && 0 <= j
    requires forall k :: 0 <= k < |b| ==> j < |b[k]|
    ensures Dot(a, b, i, j, 2) == a[i][0] * b[0][j] + a[i][1] * b[1][j]
  {
    assert Dot(a, b, i, j, 1) == a[i][0] * b[0][j];
  }

  /** The program's product of two 2×2 arrays is the product of the values. */
  lemma ProductGrid(x: M2, y: M2)
    ensures Product(Grid(x), Grid(y)) == Grid(Mul(x, y))
  {
    var gx, gy := Grid(x), Grid(y);
    var p, g := Product(gx, gy), Grid(Mul(x, y));
    DotTwo(gx, gy, 0, 0);
    DotTwo(gx, gy, 0, 1);
    DotTwo(gx, gy, 1, 0);
    DotTwo(gx, gy, 1, 1);
    assert p[0] == g[0] && p[1] == g[1];
  }

  lemma MulAssoc(x: M2, y: M2, z: M2)
    ensures Mul(Mul(x, y), z) == Mul(x, Mul(y, z))
  {
  }

  lemma MulOne(x: M2)
    ensures Mul(x, One) == x
  {
  }

  lemma OneMul(x: M2)
    ensures Mul(One, x) == x
  {
  }

  /** Multiplying by the doubled identity doubles, from either side. */
  lemma TwiceMul(x: M2, y: M2)
    ensures Mul(Twice(x), y) == Twice(Mul(x, y))
    ensures Mul(Twice(One), y) == Twice(y)
  {
  }

  /** Powers of one matrix add their exponents. */
  lemma PowZero(x: M2, n: nat)
    requires n == 0
    ensures Pow(x, n) == One
  {
  }

  lemma {:induction false} PowAdd(x: M2, m: nat, n: nat)
    ensures Mul(Pow(x, m), Pow(x, n)) == Pow(x, m + n)
  {
    if n == 0 {
      assert Pow(x, n) == One;
      MulOne(Pow(x, m));
    } else {
      calc {
        Mul(Pow(x, m), Pow(x, n));
        Mul(Pow(x, m), Mul(Pow(x, n - 1), x));
        { MulAssoc(Pow(x, m), Pow(x, n - 1), x); }
        Mul(Mul(Pow(x, m), Pow(x, n - 1)), x);
        { PowAdd(x, m, n - 1); }
        Mul(Pow(x, m + n - 1), x);
      }
    }
  }

  /** Squaring `x^(2^i)` gives `x^(2^(i+1))`. */
  lemma PowSquare(x: M2, i: nat)
    ensures Mul(Pow(x, Pow2(i)), Pow(x, Pow2(i))) == Pow(x, Pow2(i + 1))
  {
    PowAdd(x, Pow2(i), Pow2(i));
  }

  // ---------------------------------------------------------------
  // Binary digits

  /** `toBinary`: the base-2 digits of `n`, most significant first
      (`n.toString(2)` split and parsed digit by digit). */
  function ToBinary(n: nat): (d: seq<int>)
    ensures |d| >= 1
  {
    if n < 2 then [n] else ToBinary(n / 2) + [n % 2]
  }

  /** The number whose base-2 digits, most significant first, are `d`,
      reading a nonzero digit as a one, as `matrixExp` does. */
  function Value(d: seq<int>): nat
  {
    if |d| == 0 then 0 else Weight(d[0], |d| - 1) + Value(d[1..])
  }

  /** What digit `b` at place `k` adds: `2^k` when it is nonzero. */
  function Weight(b: int, k: nat): nat
  {
    if b != 0 then Pow2(k) else 0
  }

  predicate Bits(d: seq<int>)
  {
    forall k :: 0 <= k < |d| ==> d[k] == 0 || d[k] == 1
  }

  /** Appending a digit doubles the value and adds the digit. */
  lemma {:induction false} ValueAppend(d: seq<int>, b: int)
    ensures Value(d + [b]) == 2 * Value(d) + Weight(b, 0)
  {
    if |d| == 0 {
      assert [] + [b] == [b];
    } else {
      var e := d + [b];
      assert e[0] == d[0] && e[1..] == d[1..] + [b];
      ValueAppend(d[1..], b);
      assert Weight(d[0], |d|) == 2 * Weight(d[0], |d| - 1);
    }
  }

  /** The digits are bits, the leading one is 1 unless `n` is 0, and
      their value is `n`. */
  lemma {:induction false} BinaryDigits(n: nat)
    ensures Bits(ToBinary(n))
    ensures n > 0 ==> ToBinary(n)[0] == 1
    ensures Value(ToBinary(n)) == n
  {
    if n >= 2 {
      BinaryDigits(n / 2);
      ValueAppend(ToBinary(n / 2), n % 2);
      assert ToBinary(n)[0] == ToBinary(n / 2)[0];
    }
  }

  /** The value of a tail after dropping its first digit. */
  lemma ValueSplit(d: seq<int>, i: int)
    requires 0 <= i < |d|
    ensures Value(d[i..]) == Weight(d[i], |d| - 1 - i) + Value(d[i + 1..])
  {
    assert d[i..][1..] == d[i + 1..];
  }

  // ---------------------------------------------------------------
  // The memo and the exponentiation

  /** The start matrix `[[4, 1], [1, 0]]`. */
  const Start: M2 := M2(4, 1, 1, 0)

  /** The program's `identity`, `[[2, 0], [0, 2]]`: twice the identity. */
  const Identity: Matrix := [[2, 0], [0, 2]]

  /** `start^(2^i)`, the memo's entry `i`. */
  function Square(i: nat): M2
  {
    Pow(Start, Pow2(i))
  }

  /** Entry 0 is `start` itself. (The argument is a variable, not a
      literal: literal arguments make the solver unfold recursive
      definitions without end.) */
  lemma SquareZero(i: nat)
    requires i == 0
    ensures Square(i) == Start
  {
    assert Pow2(i) == 1;
    PowZero(Start, Pow2(i) - 1);
  }

  /** The array assignment `m[i] = v` for an index at most the length:
      it overwrites entry `i`, or appends when `i` is the length. */
  function Store<T>(m: seq<T>, i: nat, v: T): (r: seq<T>)
    requires i <= |m|
    ensures |r| == if i < |m| then |m| else |m| + 1
  {
    if i < |m| then m[i := v] else m + [v]
  }

  /** Entry `i` of `m` is `start^(2^i)`, for every `i`. */
  ghost predicate Squares(m: seq<Matrix>)
  {
    forall i :: 0 <= i < |m| ==> m[i] == Grid(Square(i))
  }

  /** Storing `start^(2^i)` at `i`, over an entry or just past the end,
      keeps every entry a square. */
  lemma StoreSquare(m: seq<Matrix>, i: nat, v: Matrix)
    requires Squares(m) && i <= |m| && v == Grid(Square(i))
    ensures Squares(Store(m, i, v))
    ensures m <= Store(m, i, v)
    ensures |Store(m, i, v)| == if i < |m| then |m| else i + 1
  {
    var r := Store(m, i, v);
    if i < |m| {
      assert r == m;
    } else {
      assert r == m + [v];
      forall j | 0 <= j < |r|
        ensures r[j] == Grid(Square(j))
      {
        if j < |m| {
          assert r[j] == m[j];
        }
      }
    }
  }

  /** The program's square of entry `i - 1` of the memo. */
  method NextSquare(m: seq<Matrix>, i: nat) returns (v: Matrix)
    requires Squares(m) && 1 <= i <= |m|
    ensures v == Grid(Square(i))
  {
    var prev := m[i - 1];
    SquareStep(i);
    var sq := MatrixMult(prev, prev);
    v := sq.value;
  }

  /** The program's product of the running total, twice `start^e`, with
      memo entry `k`. */
  method MultiplyIn(total: Matrix, entry: Matrix, ghost e: nat, ghost k: nat) returns (t: Matrix)
    requires total == Grid(Twice(Pow(Start, e))) && entry == Grid(Square(k))
    ensures t == Grid(Twice(Pow(Start, e + Pow2(k))))
  {
    ExpStep(e, k);
    var m := MatrixMult(total, entry);
    t := m.value;
  }

  /** One digit of `matrixExp`'s loop: a nonzero digit at place `k`
      multiplies memo entry `k` into the running total. */
  method TakeDigit(total: Matrix, entry: Matrix, digit: int, ghost e: nat, ghost k: nat)
    returns (t: Matrix, ghost e': nat)
    requires total == Grid(Twice(Pow(Start, e))) && entry == Grid(Square(k))
    ensures e' == e + Weight(digit, k) && t == Grid(Twice(Pow(Start, e')))
  {
    t, e' := total, e;
    if digit != 0 {
      t := MultiplyIn(total, entry, e, k);
      e' := e + Pow2(k);
    }
  }

  /** The memo's first entry is `start^(2^0)`. */
  lemma FirstEntry(m: seq<Matrix>)
    requires m == [Grid(Start)]
    ensures Squares(m)
  {
    forall i | 0 <= i < |m|
      ensures m[i] == Grid(Square(i))
    {
      SquareZero(i);
    }
  }

  /** The program's square of entry `i - 1` is entry `i`. */
  lemma SquareStep(i: nat)
    requires i >= 1
    ensures Product(Grid(Square(i - 1)), Grid(Square(i - 1))) == Grid(Square(i))
  {
    ProductGrid(Square(i - 1), Square(i - 1));
    PowSquare(Start, i - 1);
  }

  /** Multiplying twice `start^e` by entry `k` adds `2^k` to the exponent. */
  lemma ExpStep(e: nat, k: nat)
    ensures Product(Grid(Twice(Pow(Start, e))), Grid(Square(k))) == Grid(Twice(Pow(Start, e + Pow2(k))))
  {
    var y := Square(k);
    ProductGrid(Twice(Pow(Start, e)), y);
    TwiceMul(Pow(Start, e), y);
    PowAdd(Start, e, Pow2(k));
  }

  /** The module-level memo of squares: entry `i` is `start^(2^i)`. */
  class Memo {
    var memo: seq<Matrix>

    ghost predicate Valid()
      reads this
    {
      |memo| >= 1 && Squares(memo)
    }

    /** The memo as the program starts it: `[start]`. */
    constructor()
      ensures Valid() && memo == [Grid(Start)]
    {
      memo := [Grid(Start)];
      new;
      FirstEntry(memo);
    }

    /** `addToMemo(ind)`: fills the entries below `ind` that are missing,
        then sets entry `ind` to the square of entry `ind - 1`. Entries that
        were there keep their values. */
    method AddToMemo(ind: int)
      requires Valid() && 1 <= ind
      modifies this
      decreases ind
      ensures Valid()
      ensures |memo| == if ind < |old(memo)| then |old(memo)| else ind + 1
      ensures old(memo) <= memo
    {
      if ind - 1 >= |memo| {
        AddToMemo(ind - 1);
      }
      var next := NextSquare(memo, ind);
      StoreSquare(memo, ind, next);
      memo := Store(memo, ind, next);
    }

    /** `matrixExp(pow)`: twice `start^pow`, built from the memo entries
        named by the binary digits of `pow`. The memo only grows. */
    method MatrixExp(pow: nat) returns (total: Matrix)
      requires Valid()
      modifies this
      ensures Valid() && old(memo) <= memo
      ensures |memo| == if |ToBinary(pow)| <= |old(memo)| then |old(memo)| else |ToBinary(pow)|
      ensures total == Grid(Twice(Pow(Start, pow)))
      ensures pow == 0 ==> total == Identity
    {
      var pows := ToBinary(pow);
      BinaryDigits(pow);
      var startInd := |pows| - 1;
      total := Identity;
      ghost var done: nat := 0;
      PowZero(Start, done);
      assert pows[0..] == pows;
      for i := 0 to |pows|
        invariant Valid() && old(memo) <= memo
        invariant i == 0 ==> memo == old(memo)
        invariant i > 0 ==> |memo| == if |pows| <= |old(memo)| then |old(memo)| else |pows|
        invariant done + Value(pows[i..]) == pow
        invariant total == Grid(Twice(Pow(Start, done)))
      {
        if startInd - i >= |memo| {
          AddToMemo(startInd - i);
        }
        ValueSplit(pows, i);
        total, done := TakeDigit(total, memo[startInd - i], pows[i], done, startInd - i);
      }
      assert pows[|pows|..] == [];
    }
  }

  // ---------------------------------------------------------------
  // What the powers are

  function Fib(n: nat): nat
  {
    if n < 2 then n else Fib(n - 1) + Fib(n - 2)
  }

  /** Three Fibonacci steps at once: `F(k+6) = 4·F(k+3) + F(k)`. */
  lemma FibTriple(k: nat)
    ensures Fib(k + 6) == 4 * Fib(k + 3) + Fib(k)
  {
    assert Fib(k + 2) == Fib(k + 1) + Fib(k);
    assert Fib(k + 3) == Fib(k + 2) + Fib(k + 1);
    assert Fib(k + 4) == Fib(k + 3) + Fib(k + 2);
    assert Fib(k + 5) == Fib(k + 4) + Fib(k + 3);
  }

  /** The entries `matrixExp` yields for the exponent `k + 1`. */
  function EvenFibs(k: nat): M2
  {
    M2(Fib(3 * k + 6), Fib(3 * k + 3), Fib(3 * k + 3), Fib(3 * k))
  }

  /** Multiplying by `start` on the right, written out: a linear map of the entries. */
  function TimesStart(x: M2): M2
  {
    M2(4 * x.a + x.b, x.a, 4 * x.c + x.d, x.c)
  }

  lemma FirstFibs(k: nat)
    requires k == 0
    ensures EvenFibs(k) == Twice(Start)
  {
    assert Fib(k + 1) == 1 && Fib(k + 2) == 1;
    assert Fib(k + 4) == 3 && Fib(k + 5) == 5;
    assert Fib(k) == 0 && Fib(k + 3) == 2 && Fib(k + 6) == 8;
  }

  lemma FirstPower(k: nat)
    requires k == 0
    ensures Pow(Start, k + 1) == Start
  {
    PowZero(Start, k);
    OneMul(Start);
  }

  /** One more factor of `start` moves the even Fibonacci entries three places on. */
  lemma EvenFibsNext(k: nat)
    ensures EvenFibs(k + 1) == TimesStart(EvenFibs(k))
  {
    FibTriple(3 * k + 3);
    FibTriple(3 * k);
  }

  lemma TwiceTimesStart(x: M2)
    ensures Twice(Mul(x, Start)) == TimesStart(Twice(x))
  {
  }

  lemma PowStartNext(k: nat)
    ensures Twice(Pow(Start, k + 1)) == TimesStart(Twice(Pow(Start, k)))
  {
    TwiceTimesStart(Pow(Start, k));
  }

  /** The same statement counted from `k = n - 1`, so that the first case is `k == 0`. */
  lemma {:induction false} EvenFibonacciFrom(k: nat)
    ensures Twice(Pow(Start, k + 1)) == EvenFibs(k)
  {
    if k == 0 {
      FirstPower(k);
      FirstFibs(k);
    } else {
      EvenFibonacciFrom(k - 1);
      PowStartNext(k);
      EvenFibsNext(k - 1);
    }
  }

  /** Twice `start^n` holds the even Fibonacci numbers `F(3n+3)` and `F(3n)`:
      `matrixExp(n)` steps through every third Fibonacci number. */
  lemma EvenFibonacci(n: nat)
    requires n >= 1
    ensures Twice(Pow(Start, n)) == M2(Fib(3 * n + 3), Fib(3 * n), Fib(3 * n), Fib(3 * n - 3))
  {
    var k := n - 1;
    EvenFibonacciFrom(k);
    assert k + 1 == n && 3 * k + 6 == 3 * n + 3 && 3 * k + 3 == 3 * n && 3 * k == 3 * n - 3;
  }
}
