/**
  The board of Conway's Game of Life: a flattened toroidal grid of cells and
  the addressing that maps (column, row) coordinates onto it.

  The program fixes the grid at ROWS = COLS = 80 and stores both the current
  board and its scratch copy as flat arrays of ints, holding 0 (dead) or 1
  (live). Coordinate (x, y) is column x and row y.
*/
module Board {

  /** Number of rows (the board's height) and columns (its width), in cells. */
  const ROWS: int := 80
  const COLS: int := 80

  /** Number of cells on a board. */
  const SIZE: int := ROWS * COLS

  /** A flattened board, one int per cell. */
  type Cells = seq<int>

  predicate WellFormed(b: Cells) {
    |b| == SIZE
  }

  /** Every cell holds 0 or 1, the only values the program ever stores. */
  predicate Binary(b: Cells) {
    forall k :: 0 <= k < |b| ==> b[k] == 0 || b[k] == 1
  }

  predicate InBoard(x: int, y: int) {
    0 <= x < COLS && 0 <= y < ROWS
  }

  /** The board with every cell dead, as allocated and as left by a clear. */
  function Dead(): (b: Cells)
    ensures WellFormed(b) && Binary(b)
    ensures forall k :: 0 <= k < |b| ==> b[k] == 0
  {
    seq(SIZE, _ => 0)
  }

  // ---------------------------------------------------------------------------
  // Arithmetic helpers for a grid of arbitrary width and height.

  lemma MulNonNegative(a: int, b: int)
    requires 0 <= a && 0 <= b
    ensures 0 <= a * b
  {
  }

  /** A non-zero multiple of n is at least n away from zero. */
  lemma MulAtLeast(n: int, d: int)
    requires 0 < n
    ensures 1 <= d ==> n <= n * d
    ensures d <= -1 ==> n * d <= -n
  {
    if 1 <= d {
      MulNonNegative(n, d - 1);
    } else if d <= -1 {
      MulNonNegative(n, -d - 1);
    }
  }

  /** Euclidean division is unique: the quotient and remainder are determined. */
  lemma DivModUnique(a: int, n: int, q: int, r: int)
    requires 0 < n && 0 <= r < n && a == n * q + r
    ensures a % n == r && a / n == q
  {
    var q', r' := a / n, a % n;
    assert n * (q - q') == r' - r;
    MulAtLeast(n, q - q');
  }

  /** Adding whole turns around a ring of n positions leaves the position unchanged. */
  lemma ModAddMultiple(v: int, n: int, k: int)
    requires 0 < n
    ensures (v + n * k) % n == v % n
  {
    assert v + n * k == n * (v / n + k) + v % n;
    DivModUnique(v + n * k, n, v / n + k, v % n);
  }

  // ---------------------------------------------------------------------------
  // Addressing.

  /**
    The index getArrValue reads, exactly as written: x wraps by the width w,
    y wraps by (y + w) % h, and the row stride is the height h. The sums are
    non-negative under the requires, so C's truncating % agrees with Dafny's.
  */
  function ArrIndexAsWritten(x: int, y: int, w: int, h: int): (k: int)
    requires 0 < w && 0 < h && -w <= x && -w <= y
    ensures 0 <= k
  {
    (x + w) % w + h * ((y + w) % h)
  }

  /**
    Toroidal row-major addressing for a w-wide, h-high grid: column x mod w,
    row y mod h, row stride w. Defined for every integer coordinate.
  */
  function ArrIndex(x: int, y: int, w: int, h: int): (k: int)
    requires 0 < w && 0 < h
    ensures 0 <= k < w * h
    ensures k % w == x % w && k / w == y % h
  {
    var k := x % w + w * (y % h);
    MulNonNegative(w, y % h);
    MulNonNegative(w, h - 1 - y % h);
    assert w * h == w * (y % h) + w * (h - 1 - y % h) + w;
    DivModUnique(k, w, y % h, x % w);
    k
  }

  /** The addressing is periodic: whole turns in either direction reach the same cell. */
  lemma ArrIndexPeriodic(x: int, y: int, w: int, h: int, i: int, j: int)
    requires 0 < w && 0 < h
    ensures ArrIndex(x + w * i, y + h * j, w, h) == ArrIndex(x, y, w, h)
  {
    ModAddMultiple(x, w, i);
    ModAddMultiple(y, h, j);
  }

  /** On a square grid the formula as written reads the toroidal cell. */
  lemma ArrIndexSquare(x: int, y: int, w: int, h: int)
    requires 0 < w && w == h && -w <= x && -w <= y
    ensures ArrIndexAsWritten(x, y, w, h) == ArrIndex(x, y, w, h)
  {
    ModAddMultiple(x, w, 1);
    ModAddMultiple(y, h, 1);
  }

  /**
    On a 2-wide, 3-high grid the formula as written sends cell (1, 0) to
    index 7, past the end of the 6-cell array; the toroidal index is 1.
  */
  lemma ArrIndexNonSquareOverrun()
    ensures ArrIndexAsWritten(1, 0, 2, 3) == 7 >= 2 * 3
    ensures ArrIndex(1, 0, 2, 3) == 1
  {
  }

  /**
    getArrValue: the value at (x, y) after wrapping. The program only calls it
    on the square ROWS x COLS board, where it reads the toroidal cell.
  */
  function GetArrValue(arr: Cells, x: int, y: int, w: int, h: int): (v: int)
    requires 0 < w && w == h && |arr| == w * h && -w <= x && -w <= y
    ensures v == arr[ArrIndex(x, y, w, h)]
  {
    ArrIndexSquare(x, y, w, h);
    arr[ArrIndexAsWritten(x, y, w, h)]
  }

  /** Where the program stores in-board cell (x, y): x + y * ROWS. */
  function Idx(x: int, y: int): (k: int)
    requires InBoard(x, y)
    ensures 0 <= k < SIZE
  {
    x + y * ROWS
  }

  /** The program's store address is the toroidal address of an in-board cell. */
  lemma IdxIsArrIndex(x: int, y: int)
    requires InBoard(x, y)
    ensures Idx(x, y) == ArrIndex(x, y, COLS, ROWS)
  {
  }

  /** Column and row of a flat index. */
  function ColOf(k: int): int { k % COLS }
  function RowOf(k: int): int { k / COLS }

  /** Flat indices and in-board coordinates are in one-to-one correspondence. */
  lemma IdxRoundTrip(x: int, y: int, k: int)
    ensures InBoard(x, y) ==> ColOf(Idx(x, y)) == x && RowOf(Idx(x, y)) == y
    ensures 0 <= k < SIZE ==> InBoard(ColOf(k), RowOf(k)) && Idx(ColOf(k), RowOf(k)) == k
  {
  }

  lemma IdxInjective(x: int, y: int, x': int, y': int)
    requires InBoard(x, y) && InBoard(x', y')
    ensures Idx(x, y) == Idx(x', y') <==> x == x' && y == y'
  {
    if y < y' {
      assert Idx(x, y) < (y + 1) * ROWS <= Idx(x', y');
    } else if y' < y {
      assert Idx(x', y') < (y' + 1) * ROWS <= Idx(x, y);
    }
  }

  /** The cell at any integer coordinate of the torus. */
  function Cell(b: Cells, x: int, y: int): int
    requires WellFormed(b)
  {
    b[ArrIndex(x, y, COLS, ROWS)]
  }

  /**
    Wrapping at the edges: column -1 is column COLS - 1, column COLS is
    column 0, and likewise for rows; in-board cells are read where stored.
  */
  lemma CellWraps(b: Cells, x: int, y: int)
    requires WellFormed(b) && InBoard(x, y)
    ensures Cell(b, x, y) == b[Idx(x, y)]
    ensures Cell(b, -1, y) == b[Idx(COLS - 1, y)]
    ensures Cell(b, COLS, y) == b[Idx(0, y)]
    ensures Cell(b, x, -1) == b[Idx(x, ROWS - 1)]
    ensures Cell(b, x, ROWS) == b[Idx(x, 0)]
  {
    IdxIsArrIndex(x, y);
  }

  /** Toroidal periodicity: shifting by whole board widths and heights reads the same cell. */
  lemma CellPeriodic(b: Cells, x: int, y: int, i: int, j: int)
    requires WellFormed(b)
    ensures Cell(b, x + COLS * i, y + ROWS * j) == Cell(b, x, y)
  {
    ArrIndexPeriodic(x, y, COLS, ROWS, i, j);
  }

  /**
    For every x >= -COLS and y >= -ROWS (so in particular the whole range
    [-COLS, COLS] x [-ROWS, ROWS]) getArrValue reads inside the board, at Cell.
  */
  lemma GetArrValueIsCell(b: Cells, x: int, y: int)
    requires WellFormed(b) && -COLS <= x && -ROWS <= y
    ensures GetArrValue(b, x, y, COLS, ROWS) == Cell(b, x, y)
    ensures 0 <= ArrIndexAsWritten(x, y, COLS, ROWS) < SIZE
  {
    ArrIndexSquare(x, y, COLS, ROWS);
  }
}
