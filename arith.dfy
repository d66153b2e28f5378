/** Small facts about multiplication, division and remainder that the
    solver does not find on its own. */
module Arith {

  lemma MulLeft(a: int, b: int, n: int)
    requires n >= 0 && a <= b
    ensures a * n <= b * n
  {
    assert b * n - a * n == (b - a) * n;
  }

  /** Division and remainder of `r * n + c` recover `r` and `c`. */
  lemma DivModOf(r: int, c: int, n: int)
    requires n >= 1 && 0 <= c < n
    ensures (r * n + c) / n == r && (r * n + c) % n == c
  {
    var x := r * n + c;
    var q, m := x / n, x % n;
    assert x == q * n + m;
    assert (q - r) * n == c - m;
    if q > r {
      MulLeft(1, q - r, n);
      assert false;
    } else if q < r {
      MulLeft(q - r, -1, n);
      assert false;
    }
  }

  /** The last cell of an n×n board is in the last row and column. */
  lemma LastCell(n: int)
    requires n >= 1
    ensures (n * n - 1) / n == n - 1 && (n * n - 1) % n == n - 1
  {
    assert n * n - 1 == (n - 1) * n + (n - 1);
    DivModOf(n - 1, n - 1, n);
  }

  /** A cell of an n×n board has a row and a column below `n`. */
  lemma Coords(b: int, n: int)
    requires n >= 1 && 0 <= b < n * n
    ensures b == (b / n) * n + b % n
    ensures 0 <= b / n < n && 0 <= b % n < n
  {
    if b / n >= n {
      MulLeft(n, b / n, n);
    }
  }

  /** The cell at row `r`, column `c` lies on an n×n board. */
  lemma CellInRange(r: int, c: int, n: int)
    requires n >= 1 && 0 <= r < n && 0 <= c < n
    ensures 0 <= r * n + c < n * n
  {
    MulLeft(r, n - 1, n);
    MulLeft(0, r, n);
  }

  lemma ModTwoShift(x: int, y: int)
    ensures (2 * x + y) % 2 == y % 2
  {
    DivModOf(x + y / 2, y % 2, 2);
    assert 2 * x + y == (x + y / 2) * 2 + y % 2;
  }
}
