/**
  Classic patterns under the rule engine: a 2x2 block is a still life and a
  three-cell blinker oscillates with period 2. All are rectangles of live
  cells, whose neighbour counts factor into a column span times a row span.
*/
module Patterns {
  import opened Board
  import opened Rules

  /** A rectangle [x0, x1] x [y0, y1] kept one cell away from every edge. */
  predicate Inner(x0: int, x1: int, y0: int, y1: int) {
    1 <= x0 <= x1 <= COLS - 2 && 1 <= y0 <= y1 <= ROWS - 2
  }

  /** The board whose live cells are exactly the rectangle [x0, x1] x [y0, y1]. */
  function Rect(x0: int, x1: int, y0: int, y1: int): (b: Cells)
    ensures WellFormed(b) && Binary(b)
  {
    seq(SIZE, k => if x0 <= ColOf(k) <= x1 && y0 <= RowOf(k) <= y1 then 1 else 0)
  }

  /** 1 when v, taken round a ring of n positions, falls in [lo, hi]. */
  function Hit(v: int, lo: int, hi: int, n: int): int
    requires 0 < n
  {
    if lo <= v % n <= hi then 1 else 0
  }

  lemma HitInRange(v: int, lo: int, hi: int, n: int)
    requires 0 <= v < n
    ensures Hit(v, lo, hi, n) == if lo <= v <= hi then 1 else 0
  {
  }

  /** How many of v - 1, v, v + 1 fall in [lo, hi] round a ring of n positions. */
  function Span(v: int, lo: int, hi: int, n: int): int
    requires 0 < n
  {
    Hit(v - 1, lo, hi, n) + Hit(v, lo, hi, n) + Hit(v + 1, lo, hi, n)
  }

  /** The number of integers shared by [v - 1, v + 1] and [lo, hi]. */
  function Overlap(v: int, lo: int, hi: int): int {
    var a := if v - 1 < lo then lo else v - 1;
    var b := if v + 1 > hi then hi else v + 1;
    if a <= b then b - a + 1 else 0
  }

  /** Away from the wrap, the span is the overlap of [v - 1, v + 1] with [lo, hi]. */
  lemma SpanValue(v: int, lo: int, hi: int, n: int)
    requires 0 <= v < n && 1 <= lo <= hi <= n - 2
    ensures Span(v, lo, hi, n) == Overlap(v, lo, hi)
  {
    assert v == 0 ==> (v - 1) % n == n - 1;
    assert v == n - 1 ==> (v + 1) % n == 0;
    assert 0 < v ==> (v - 1) % n == v - 1;
    assert v < n - 1 ==> (v + 1) % n == v + 1;
  }

  /** Reading a rectangle board anywhere on the torus. */
  lemma LiveRect(x0: int, x1: int, y0: int, y1: int, i: int, j: int)
    ensures Live(Rect(x0, x1, y0, y1), i, j) == Hit(i, x0, x1, COLS) * Hit(j, y0, y1, ROWS)
  {
    var k := ArrIndex(i, j, COLS, ROWS);
    assert ColOf(k) == i % COLS && RowOf(k) == j % ROWS;
  }

  /**
    The neighbour count on a rectangle board is the column span times the
    row span, less the centre when the centre is live.
  */
  lemma RectNeighbours(x0: int, x1: int, y0: int, y1: int, x: int, y: int)
    ensures Neighbours(Rect(x0, x1, y0, y1), x, y) ==
      Span(x, x0, x1, COLS) * Span(y, y0, y1, ROWS) - Hit(x, x0, x1, COLS) * Hit(y, y0, y1, ROWS)
  {
    var b := Rect(x0, x1, y0, y1);
    var a1, a2, a3 := Hit(x - 1, x0, x1, COLS), Hit(x, x0, x1, COLS), Hit(x + 1, x0, x1, COLS);
    var c1, c2, c3 := Hit(y - 1, y0, y1, ROWS), Hit(y, y0, y1, ROWS), Hit(y + 1, y0, y1, ROWS);
    LiveRect(x0, x1, y0, y1, x - 1, y - 1);
    LiveRect(x0, x1, y0, y1, x, y - 1);
    LiveRect(x0, x1, y0, y1, x + 1, y - 1);
    LiveRect(x0, x1, y0, y1, x - 1, y);
    LiveRect(x0, x1, y0, y1, x + 1, y);
    LiveRect(x0, x1, y0, y1, x - 1, y + 1);
    LiveRect(x0, x1, y0, y1, x, y + 1);
    LiveRect(x0, x1, y0, y1, x + 1, y + 1);
    assert Neighbours(b, x, y) == a1 * c1 + a2 * c1 + a3 * c1 + a1 * c2 + a3 * c2 + a1 * c3 + a2 * c3 + a3 * c3;
    Distribute(a1, a2, a3, c1, c2, c3);
  }

  lemma Distribute(a1: int, a2: int, a3: int, c1: int, c2: int, c3: int)
    ensures (a1 + a2 + a3) * (c1 + c2 + c3) - a2 * c2 ==
      a1 * c1 + a2 * c1 + a3 * c1 + a1 * c2 + a3 * c2 + a1 * c3 + a2 * c3 + a3 * c3
  {
  }

  /** Cell (x, y) of a rectangle board. */
  lemma RectAt(x0: int, x1: int, y0: int, y1: int, x: int, y: int)
    requires InBoard(x, y)
    ensures Rect(x0, x1, y0, y1)[Idx(x, y)] == if x0 <= x <= x1 && y0 <= y <= y1 then 1 else 0
  {
    IdxRoundTrip(x, y, 0);
  }

  /** Cell (x, y) of the next generation of a rectangle board, from the two overlaps. */
  lemma NextRectAt(x0: int, x1: int, y0: int, y1: int, x: int, y: int)
    requires Inner(x0, x1, y0, y1) && InBoard(x, y)
    ensures var live := x0 <= x <= x1 && y0 <= y <= y1;
      var n := Overlap(x, x0, x1) * Overlap(y, y0, y1) - (if live then 1 else 0);
      NextGen(Rect(x0, x1, y0, y1))[Idx(x, y)] == if NextState(live, n) then 1 else 0
  {
    var b := Rect(x0, x1, y0, y1);
    RectAt(x0, x1, y0, y1, x, y);
    NextGenAt(b, x, y);
    RectNeighbours(x0, x1, y0, y1, x, y);
    HitInRange(x, x0, x1, COLS);
    HitInRange(y, y0, y1, ROWS);
    SpanValue(x, x0, x1, COLS);
    SpanValue(y, y0, y1, ROWS);
  }

  /** Two boards agree when they agree on every in-board cell. */
  lemma BoardsEqual(a: Cells, b: Cells)
    requires WellFormed(a) && WellFormed(b)
    requires forall x, y :: InBoard(x, y) ==> a[Idx(x, y)] == b[Idx(x, y)]
    ensures a == b
  {
    forall k | 0 <= k < SIZE
      ensures a[k] == b[k]
    {
      IdxRoundTrip(ColOf(k), RowOf(k), k);
    }
  }

  /** The rule on a 2x2 block at (x0, y0): a cell lives next exactly when it lives now. */
  lemma BlockRule(x: int, y: int, x0: int, y0: int)
    ensures var live := x0 <= x <= x0 + 1 && y0 <= y <= y0 + 1;
      NextState(live, Overlap(x, x0, x0 + 1) * Overlap(y, y0, y0 + 1) - (if live then 1 else 0)) == live
  {
    var sx, sy := Overlap(x, x0, x0 + 1), Overlap(y, y0, y0 + 1);
    assert 0 <= sx <= 2 && 0 <= sy <= 2;
    assert sx == 2 <==> x0 <= x <= x0 + 1;
    assert sy == 2 <==> y0 <= y <= y0 + 1;
    if sx == 0 || sy == 0 {
    } else if sx == 1 {
    } else if sy == 1 {
    } else {
      assert sx * sy == 4;
    }
  }

  /** The rule on a horizontal blinker through (x, y): the vertical one through (x, y) comes next. */
  lemma BlinkerRule(i: int, j: int, x: int, y: int)
    ensures var live := x - 1 <= i <= x + 1 && j == y;
      NextState(live, Overlap(i, x - 1, x + 1) * Overlap(j, y, y) - (if live then 1 else 0)) ==
        (i == x && y - 1 <= j <= y + 1)
  {
    var sx, sy := Overlap(i, x - 1, x + 1), Overlap(j, y, y);
    assert 0 <= sy <= 1 && (sy == 1 <==> y - 1 <= j <= y + 1);
    if sy == 0 {
    } else {
      assert sx * sy == sx;
    }
  }

  /** The rule on a vertical blinker through (x, y): the horizontal one through (x, y) comes next. */
  lemma BlinkerBackRule(i: int, j: int, x: int, y: int)
    ensures var live := i == x && y - 1 <= j <= y + 1;
      NextState(live, Overlap(i, x, x) * Overlap(j, y - 1, y + 1) - (if live then 1 else 0)) ==
        (x - 1 <= i <= x + 1 && j == y)
  {
    var sx, sy := Overlap(i, x, x), Overlap(j, y - 1, y + 1);
    assert 0 <= sx <= 1 && (sx == 1 <==> x - 1 <= i <= x + 1);
    if sx == 0 {
    } else {
      assert sx * sy == sy;
    }
  }

  /** Away from the edges, a 2x2 block is a still life: every live cell has 3 neighbours, no dead cell has 3. */
  lemma InnerBlockIsStill(x0: int, y0: int)
    requires Inner(x0, x0 + 1, y0, y0 + 1)
    ensures NextGen(Rect(x0, x0 + 1, y0, y0 + 1)) == Rect(x0, x0 + 1, y0, y0 + 1)
  {
    var b := Rect(x0, x0 + 1, y0, y0 + 1);
    forall x, y | InBoard(x, y)
      ensures NextGen(b)[Idx(x, y)] == b[Idx(x, y)]
    {
      RectAt(x0, x0 + 1, y0, y0 + 1, x, y);
      NextRectAt(x0, x0 + 1, y0, y0 + 1, x, y);
      BlockRule(x, y, x0, y0);
    }
    BoardsEqual(NextGen(b), b);
  }

  /** Cell (i, j) after one tick of the horizontal blinker through (x, y). */
  lemma BlinkerTurnsAt(x: int, y: int, i: int, j: int)
    requires Inner(x - 1, x + 1, y - 1, y + 1) && InBoard(i, j)
    ensures NextGen(Rect(x - 1, x + 1, y, y))[Idx(i, j)] == Rect(x, x, y - 1, y + 1)[Idx(i, j)]
  {
    RectAt(x, x, y - 1, y + 1, i, j);
    NextRectAt(x - 1, x + 1, y, y, i, j);
    BlinkerRule(i, j, x, y);
  }

  /** Away from the edges, a horizontal blinker becomes the vertical one through its middle cell. */
  lemma InnerBlinkerTurns(x: int, y: int)
    requires Inner(x - 1, x + 1, y - 1, y + 1)
    ensures NextGen(Rect(x - 1, x + 1, y, y)) == Rect(x, x, y - 1, y + 1)
  {
    forall i, j | InBoard(i, j)
      ensures NextGen(Rect(x - 1, x + 1, y, y))[Idx(i, j)] == Rect(x, x, y - 1, y + 1)[Idx(i, j)]
    {
      BlinkerTurnsAt(x, y, i, j);
    }
    BoardsEqual(NextGen(Rect(x - 1, x + 1, y, y)), Rect(x, x, y - 1, y + 1));
  }

  /** Cell (i, j) after one tick of the vertical blinker through (x, y). */
  lemma BlinkerTurnsBackAt(x: int, y: int, i: int, j: int)
    requires Inner(x - 1, x + 1, y - 1, y + 1) && InBoard(i, j)
    ensures NextGen(Rect(x, x, y - 1, y + 1))[Idx(i, j)] == Rect(x - 1, x + 1, y, y)[Idx(i, j)]
  {
    RectAt(x - 1, x + 1, y, y, i, j);
    NextRectAt(x, x, y - 1, y + 1, i, j);
    BlinkerBackRule(i, j, x, y);
  }

  /** Away from the edges, a vertical blinker becomes the horizontal one through its middle cell. */
  lemma InnerBlinkerTurnsBack(x: int, y: int)
    requires Inner(x - 1, x + 1, y - 1, y + 1)
    ensures NextGen(Rect(x, x, y - 1, y + 1)) == Rect(x - 1, x + 1, y, y)
  {
    forall i, j | InBoard(i, j)
      ensures NextGen(Rect(x, x, y - 1, y + 1))[Idx(i, j)] == Rect(x - 1, x + 1, y, y)[Idx(i, j)]
    {
      BlinkerTurnsBackAt(x, y, i, j);
    }
    BoardsEqual(NextGen(Rect(x, x, y - 1, y + 1)), Rect(x - 1, x + 1, y, y));
  }

  // ---------------------------------------------------------------------------
  // Moving a board round the torus: the rule has no preferred position, so a
  // pattern behaves the same wherever it sits, also across the edges.

  /** The board b moved dx columns right and dy rows down, wrapping at the edges. */
  function Shift(b: Cells, dx: int, dy: int): (r: Cells)
    requires WellFormed(b)
    ensures WellFormed(r)
  {
    seq(SIZE, k => Cell(b, ColOf(k) - dx, RowOf(k) - dy))
  }

  lemma ShiftAt(b: Cells, dx: int, dy: int, k: int)
    requires WellFormed(b) && 0 <= k < SIZE
    ensures Shift(b, dx, dy)[k] == Cell(b, ColOf(k) - dx, RowOf(k) - dy)
  {
  }

  /** Every torus cell of the moved board is the cell it came from. */
  lemma CellShift(b: Cells, dx: int, dy: int, x: int, y: int)
    requires WellFormed(b)
    ensures Cell(Shift(b, dx, dy), x, y) == Cell(b, x - dx, y - dy)
  {
    var k := ArrIndex(x, y, COLS, ROWS);
    assert ColOf(k) == x % COLS && RowOf(k) == y % ROWS;
    CellPeriodic(b, x % COLS - dx, y % ROWS - dy, x / COLS, y / ROWS);
  }

  /** Moving the board moves the neighbour counts with it. */
  lemma NeighboursShift(b: Cells, dx: int, dy: int, x: int, y: int)
    requires WellFormed(b)
    ensures Neighbours(Shift(b, dx, dy), x, y) == Neighbours(b, x - dx, y - dy)
  {
    CellShift(b, dx, dy, x - 1, y - 1);
    CellShift(b, dx, dy, x, y - 1);
    CellShift(b, dx, dy, x + 1, y - 1);
    CellShift(b, dx, dy, x - 1, y);
    CellShift(b, dx, dy, x + 1, y);
    CellShift(b, dx, dy, x - 1, y + 1);
    CellShift(b, dx, dy, x, y + 1);
    CellShift(b, dx, dy, x + 1, y + 1);
  }

  /** Neighbour counts repeat with the period of the torus. */
  lemma NeighboursPeriodic(b: Cells, x: int, y: int, i: int, j: int)
    requires WellFormed(b)
    ensures Neighbours(b, x + COLS * i, y + ROWS * j) == Neighbours(b, x, y)
  {
    CellPeriodic(b, x - 1, y - 1, i, j);
    CellPeriodic(b, x, y - 1, i, j);
    CellPeriodic(b, x + 1, y - 1, i, j);
    CellPeriodic(b, x - 1, y, i, j);
    CellPeriodic(b, x + 1, y, i, j);
    CellPeriodic(b, x - 1, y + 1, i, j);
    CellPeriodic(b, x, y + 1, i, j);
    CellPeriodic(b, x + 1, y + 1, i, j);
  }

  /** The next state of a torus cell is that of its in-board representative. */
  lemma NextCellPeriodic(b: Cells, x: int, y: int)
    requires WellFormed(b)
    ensures NextCell(b, x % COLS, y % ROWS) == NextCell(b, x, y)
  {
    CellPeriodic(b, x, y, -(x / COLS), -(y / ROWS));
    NeighboursPeriodic(b, x, y, -(x / COLS), -(y / ROWS));
  }

  /** The next state of a cell of the moved board is that of the cell it came from. */
  lemma NextCellShift(b: Cells, dx: int, dy: int, x: int, y: int)
    requires WellFormed(b)
    ensures NextCell(Shift(b, dx, dy), x, y) == NextCell(b, x - dx, y - dy)
  {
    CellShift(b, dx, dy, x, y);
    NeighboursShift(b, dx, dy, x, y);
  }

  /** Cell k of the next generation of the moved board, by the rule at its origin. */
  lemma NextOfShiftAt(b: Cells, dx: int, dy: int, k: int)
    requires WellFormed(b) && 0 <= k < SIZE
    ensures NextGen(Shift(b, dx, dy))[k] == NextCell(b, ColOf(k) - dx, RowOf(k) - dy)
  {
    assert NextGen(Shift(b, dx, dy))[k] == NextCell(Shift(b, dx, dy), ColOf(k), RowOf(k));
    NextCellShift(b, dx, dy, ColOf(k), RowOf(k));
  }

  /** Cell k of the moved next generation, by the rule at its origin. */
  lemma ShiftOfNextAt(b: Cells, dx: int, dy: int, k: int)
    requires WellFormed(b) && 0 <= k < SIZE
    ensures Shift(NextGen(b), dx, dy)[k] == NextCell(b, ColOf(k) - dx, RowOf(k) - dy)
  {
    ShiftAt(NextGen(b), dx, dy, k);
    CellNextGen(b, ColOf(k) - dx, RowOf(k) - dy);
  }

  /** Every torus cell of the next generation holds the rule's verdict for that cell. */
  lemma CellNextGen(b: Cells, x: int, y: int)
    requires WellFormed(b)
    ensures Cell(NextGen(b), x, y) == NextCell(b, x, y)
  {
    var g := NextGen(b);
    var j := ArrIndex(x, y, COLS, ROWS);
    assert Cell(g, x, y) == g[j];
    assert g[j] == NextCell(b, x % COLS, y % ROWS);
    NextCellPeriodic(b, x, y);
  }

  /** A tick commutes with moving the board round the torus. */
  lemma NextGenShift(b: Cells, dx: int, dy: int)
    requires WellFormed(b)
    ensures NextGen(Shift(b, dx, dy)) == Shift(NextGen(b), dx, dy)
  {
    forall k | 0 <= k < SIZE
      ensures NextGen(Shift(b, dx, dy))[k] == Shift(NextGen(b), dx, dy)[k]
    {
      NextOfShiftAt(b, dx, dy, k);
      ShiftOfNextAt(b, dx, dy, k);
    }
  }

  /**
    The board whose live cells form the w-wide, h-high rectangle with
    top-left cell (x0, y0), wrapping round the torus where it crosses an edge.
  */
  function Box(x0: int, y0: int, w: int, h: int): (b: Cells)
    ensures WellFormed(b) && Binary(b)
  {
    seq(SIZE, k => if (ColOf(k) - x0) % COLS < w && (RowOf(k) - y0) % ROWS < h then 1 else 0)
  }

  /** Offsetting a ring position by a keeps it in the window [a, a + w - 1] exactly when it was in [0, w - 1]. */
  lemma WindowShift(t: int, a: int, w: int, n: int)
    requires 1 <= a && 1 <= w && a + w <= n - 1
    ensures a <= (t + a) % n <= a + w - 1 <==> t % n < w
  {
    var q, m := t / n, t % n;
    if m + a < n {
      DivModUnique(t + a, n, q, m + a);
    } else {
      DivModUnique(t + a, n, q + 1, m + a - n);
    }
  }

  /** A box anywhere on the torus is a centred rectangle moved into place. */
  lemma BoxIsShiftedRect(x0: int, y0: int, w: int, h: int, a: int, c: int)
    requires 1 <= w && 1 <= h && Inner(a, a + w - 1, c, c + h - 1)
    ensures Box(x0, y0, w, h) == Shift(Rect(a, a + w - 1, c, c + h - 1), x0 - a, y0 - c)
  {
    var r := Rect(a, a + w - 1, c, c + h - 1);
    forall k | 0 <= k < SIZE
      ensures Box(x0, y0, w, h)[k] == Shift(r, x0 - a, y0 - c)[k]
    {
      var i, j := ColOf(k) - (x0 - a), RowOf(k) - (y0 - c);
      LiveRect(a, a + w - 1, c, c + h - 1, i, j);
      assert Cell(r, i, j) == Live(r, i, j);
      WindowShift(ColOf(k) - x0, a, w, COLS);
      WindowShift(RowOf(k) - y0, c, h, ROWS);
    }
  }

  /** A 2x2 block is a still life wherever it sits, also across the edges. */
  lemma BlockIsStill(x0: int, y0: int)
    ensures NextGen(Box(x0, y0, 2, 2)) == Box(x0, y0, 2, 2)
  {
    BoxIsShiftedRect(x0, y0, 2, 2, 1, 1);
    NextGenShift(Rect(1, 2, 1, 2), x0 - 1, y0 - 1);
    InnerBlockIsStill(1, 1);
  }

  /** A horizontal blinker centred on (x, y) becomes the vertical one, anywhere on the torus. */
  lemma BlinkerTurns(x: int, y: int)
    ensures NextGen(Box(x - 1, y, 3, 1)) == Box(x, y - 1, 1, 3)
  {
    BoxIsShiftedRect(x - 1, y, 3, 1, 1, 2);
    BoxIsShiftedRect(x, y - 1, 1, 3, 2, 1);
    NextGenShift(Rect(1, 3, 2, 2), x - 2, y - 2);
    InnerBlinkerTurns(2, 2);
  }

  /** A vertical blinker centred on (x, y) becomes the horizontal one, anywhere on the torus. */
  lemma BlinkerTurnsBack(x: int, y: int)
    ensures NextGen(Box(x, y - 1, 1, 3)) == Box(x - 1, y, 3, 1)
  {
    BoxIsShiftedRect(x - 1, y, 3, 1, 1, 2);
    BoxIsShiftedRect(x, y - 1, 1, 3, 2, 1);
    NextGenShift(Rect(2, 2, 1, 3), x - 2, y - 2);
    InnerBlinkerTurnsBack(2, 2);
  }

  /** The left end of the horizontal blinker is live, and dead in the vertical one. */
  lemma BoxCorner(x: int, y: int)
    ensures Box(x - 1, y, 3, 1) != Box(x, y - 1, 1, 3)
  {
    var c, r := (x - 1) % COLS, y % ROWS;
    var k := Idx(c, r);
    IdxRoundTrip(c, r, 0);
    ModAddMultiple(0, COLS, -((x - 1) / COLS));
    ModAddMultiple(-1, COLS, -((x - 1) / COLS));
    ModAddMultiple(0, ROWS, -(y / ROWS));
    assert c - (x - 1) == COLS * -((x - 1) / COLS);
    assert r - y == ROWS * -(y / ROWS);
    assert (c - (x - 1)) % COLS == 0 && (r - y) % ROWS == 0;
    assert (c - x) % COLS == COLS - 1;
    assert Box(x - 1, y, 3, 1)[k] == 1;
    assert Box(x, y - 1, 1, 3)[k] == 0;
  }

  /** The blinker is an oscillator of period 2 wherever it sits. */
  lemma BlinkerPeriodTwo(x: int, y: int)
    ensures Generations(Box(x - 1, y, 3, 1), 2) == Box(x - 1, y, 3, 1)
    ensures Generations(Box(x - 1, y, 3, 1), 1) != Box(x - 1, y, 3, 1)
  {
    BlinkerTurns(x, y);
    BlinkerTurnsBack(x, y);
    var h, v := Box(x - 1, y, 3, 1), Box(x, y - 1, 1, 3);
    assert Generations(h, 1) == Generations(v, 0) == v;
    assert Generations(h, 2) == Generations(v, 1) == Generations(h, 0);
    BoxCorner(x, y);
  }
}
