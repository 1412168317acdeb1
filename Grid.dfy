/** Tile coordinates of the N x N board and their row-major position in the cell array. */
module Grid {

  /** BOARD_SIZE and MINE_COUNT of the original build. */
  const BOARD_SIZE: int := 24
  const MINE_COUNT: int := 100

  /** The original build's sizes meet the requirements of a board. */
  lemma OriginalSizesValid()
    ensures 0 < BOARD_SIZE && 0 <= MINE_COUNT < BOARD_SIZE * BOARD_SIZE
  {
  }

  predicate InBounds(n: int, x: int, y: int) {
    0 <= x < n && 0 <= y < n
  }

  /** `index(x, y)`: no bounds check, exactly as in the game; in bounds it lands in the array. */
  function Index(n: int, x: int, y: int): (r: int)
    ensures InBounds(n, x, y) ==> 0 <= r < n * n
  {
    if InBounds(n, x, y) then RowStartBelow(n, y); x + y * n else x + y * n
  }

  lemma RowStartBelow(n: int, y: int)
    requires 0 <= y < n
    ensures 0 <= y * n <= n * n - n
  {
    MulLe(0, y, n);
    MulLe(y, n - 1, n);
    assert (n - 1) * n == n * n - n;
  }

  /** Multiplication by a non-negative factor is monotone. */
  lemma {:induction false} MulLe(a: int, b: int, c: int)
    requires a <= b && 0 <= c
    ensures a * c <= b * c
    decreases b - a
  {
    if a < b {
      MulLe(a + 1, b, c);
      assert (a + 1) * c == a * c + c;
    }
  }

  /** Two in-bounds tiles with the same index are the same tile. */
  lemma IndexInjective(n: int, x1: int, y1: int, x2: int, y2: int)
    requires InBounds(n, x1, y1) && InBounds(n, x2, y2)
    requires Index(n, x1, y1) == Index(n, x2, y2)
    ensures x1 == x2 && y1 == y2
  {
    if y1 < y2 {
      RowsApart(n, y1, y2);
    } else if y2 < y1 {
      RowsApart(n, y2, y1);
    }
  }

  /** A lower row ends before a higher row starts. */
  lemma RowsApart(n: int, y1: int, y2: int)
    requires 0 <= y1 < y2 && 0 < n
    ensures y1 * n + n <= y2 * n
  {
    MulLe(y1 + 1, y2, n);
    assert (y1 + 1) * n == y1 * n + n;
  }

  /** Every array position 0 <= i < N*N is the index of the tile (i % N, i / N). */
  lemma IndexOnto(n: int, i: int)
    requires 0 < n && 0 <= i < n * n
    ensures InBounds(n, i % n, i / n) && Index(n, i % n, i / n) == i
  {
    var x, y := i % n, i / n;
    assert i == y * n + x;
  }

  /** The screen region of the restart emoji, in tile coordinates. */
  predicate RequestRestart(n: int, x: int, y: int)
  {
    n / 2 - 1 <= x <= n / 2 + 1 && n + 1 <= y <= n + 3
  }

  /** The restart region never overlaps the board, so a restart click is never a tile click. */
  lemma RestartOutsideBoard(n: int, x: int, y: int)
    requires RequestRestart(n, x, y)
    ensures !InBounds(n, x, y)
  {
  }

  /** A tile of the restart region indexes past the end of the N*N cell array. */
  lemma {:induction false} RestartIndexPastArray(n: int, x: int, y: int)
    requires 0 < n && RequestRestart(n, x, y)
    ensures Index(n, x, y) >= n * n
  {
    MulLe(n + 1, y, n);
    assert (n + 1) * n == n * n + n;
  }

  /** Without a bounds check, column N of row y is the first tile of row y + 1. */
  lemma RightEdgeWraps(n: int, y: int)
    ensures Index(n, n, y) == Index(n, 0, y + 1)
  {
    assert (y + 1) * n == y * n + n;
  }

  /** Without a bounds check, column -1 of row y is the last tile of row y - 1. */
  lemma LeftEdgeWraps(n: int, y: int)
    ensures Index(n, -1, y) == Index(n, n - 1, y - 1)
  {
    assert (y - 1) * n == y * n - n;
  }

  /**
   * A click names a tile with x in -1..N. Off the board, such a tile lands in the cell array
   * exactly when it is (N, y) with -1 <= y <= N-2 or (-1, y) with 1 <= y <= N; every other
   * off-board tile indexes outside the array.
   */
  lemma {:induction false} OffBoardInArray(n: int, x: int, y: int)
    requires 0 < n && -1 <= x <= n && !InBounds(n, x, y)
    ensures 0 <= Index(n, x, y) < n * n <==> (x == n && -1 <= y <= n - 2) || (x == -1 && 1 <= y <= n)
  {
    if x == n {
      RightEdgeWraps(n, y);
      if y < -1 {
        MulLe(y + 1, -1, n);
      } else if y > n - 2 {
        MulLe(n, y + 1, n);
      }
    } else if x == -1 {
      LeftEdgeWraps(n, y);
      if y < 1 {
        MulLe(y - 1, -1, n);
      } else if y > n {
        MulLe(n, y - 1, n);
      }
    } else if y < 0 {
      MulLe(y, -1, n);
    } else {
      MulLe(n, y, n);
    }
  }
}
