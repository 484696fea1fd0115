/**
  The rule engine: neighbour counting on the torus and the B3/S23 rule that
  turns a neighbour count into the next state of a cell.
*/
module Rules {
  import opened Board

  /** 1 when the cell at (x, y) of the torus reads as live (holds 1), else 0. */
  function Live(b: Cells, x: int, y: int): int
    requires WellFormed(b)
  {
    if Cell(b, x, y) == 1 then 1 else 0
  }

  /**
    The Moore neighbourhood count: the live cells among the eight cells at
    Chebyshev distance 1 from (x, y), with wrapping at the edges.
  */
  function Neighbours(b: Cells, x: int, y: int): (n: int)
    requires WellFormed(b)
    ensures 0 <= n <= 8
  {
    Live(b, x - 1, y - 1) + Live(b, x, y - 1) + Live(b, x + 1, y - 1) +
    Live(b, x - 1, y)     +                     Live(b, x + 1, y) +
    Live(b, x - 1, y + 1) + Live(b, x, y + 1) + Live(b, x + 1, y + 1)
  }

  // ---------------------------------------------------------------------------
  // countNeighbors as the program computes it: column i from x - 1 to x + 1,
  // row j from y - 1 to y + 1, skipping the centre, reading with getArrValue.

  /** Coordinates countNeighbors may be called with: its reads stay in getArrValue's range. */
  predicate CountableAt(x: int, y: int) {
    1 - COLS <= x && 1 - COLS <= y
  }

  /** One step of the inner loop: 1 when (i, j) is not the centre and holds 1. */
  function Term(b: Cells, x: int, y: int, i: int, j: int): int
    requires WellFormed(b) && -COLS <= i && -COLS <= j
  {
    if i == x && j == y then 0
    else if GetArrValue(b, i, j, COLS, ROWS) == 1 then 1
    else 0
  }

  /** The count contributed by column i over rows y - 1 up to (not including) j. */
  function ColumnSum(b: Cells, x: int, y: int, i: int, j: int): int
    requires WellFormed(b) && CountableAt(x, y) && x - 1 <= i <= x + 1
    requires y - 1 <= j <= y + 2
    decreases j - y
  {
    if j == y - 1 then 0 else ColumnSum(b, x, y, i, j - 1) + Term(b, x, y, i, j - 1)
  }

  /** The count over columns x - 1 up to (not including) i. */
  function BlockSum(b: Cells, x: int, y: int, i: int): int
    requires WellFormed(b) && CountableAt(x, y) && x - 1 <= i <= x + 2
    decreases i - x
  {
    if i == x - 1 then 0 else BlockSum(b, x, y, i - 1) + ColumnSum(b, x, y, i - 1, y + 2)
  }

  /** Away from the centre, one step of the loop reads the torus cell. */
  lemma TermIsLive(b: Cells, x: int, y: int, i: int, j: int)
    requires WellFormed(b) && -COLS <= i && -COLS <= j
    ensures Term(b, x, y, i, j) == if i == x && j == y then 0 else Live(b, i, j)
  {
    GetArrValueIsCell(b, i, j);
  }

  /** One column of the loop counts its three rows, the centre excluded. */
  lemma ColumnSumUnrolled(b: Cells, x: int, y: int, i: int)
    requires WellFormed(b) && CountableAt(x, y) && x - 1 <= i <= x + 1
    ensures ColumnSum(b, x, y, i, y + 2) ==
      (if i == x then 0 else Live(b, i, y)) + Live(b, i, y - 1) + Live(b, i, y + 1)
  {
    TermIsLive(b, x, y, i, y - 1);
    TermIsLive(b, x, y, i, y);
    TermIsLive(b, x, y, i, y + 1);
    assert ColumnSum(b, x, y, i, y) == Term(b, x, y, i, y - 1);
    assert ColumnSum(b, x, y, i, y + 1) == ColumnSum(b, x, y, i, y) + Term(b, x, y, i, y);
  }

  /** The nested loops of countNeighbors count exactly the Moore neighbourhood. */
  lemma BlockSumIsNeighbours(b: Cells, x: int, y: int)
    requires WellFormed(b) && CountableAt(x, y)
    ensures BlockSum(b, x, y, x + 2) == Neighbours(b, x, y)
  {
    ColumnSumUnrolled(b, x, y, x - 1);
    ColumnSumUnrolled(b, x, y, x);
    ColumnSumUnrolled(b, x, y, x + 1);
    assert BlockSum(b, x, y, x) == ColumnSum(b, x, y, x - 1, y + 2);
    assert BlockSum(b, x, y, x + 1) == BlockSum(b, x, y, x) + ColumnSum(b, x, y, x, y + 2);
    assert BlockSum(b, x, y, x + 2) == BlockSum(b, x, y, x + 1) + ColumnSum(b, x, y, x + 1, y + 2);
  }

  /** countNeighbors: the number of live cells around (x, y), the centre excluded. */
  method CountNeighbors(b: Cells, x: int, y: int) returns (count: int)
    requires WellFormed(b) && CountableAt(x, y)
    ensures count == Neighbours(b, x, y)
    ensures 0 <= count <= 8
  {
    count := 0;
    var i := x - 1;
    while i <= x + 1
      invariant x - 1 <= i <= x + 2
      invariant count == BlockSum(b, x, y, i)
    {
      var j := y - 1;
      while j <= y + 1
        invariant y - 1 <= j <= y + 2
        invariant count == BlockSum(b, x, y, i) + ColumnSum(b, x, y, i, j)
      {
        if i == x && y == j {
        } else if GetArrValue(b, i, j, COLS, ROWS) == 1 {
          count := count + 1;
        }
        j := j + 1;
      }
      i := i + 1;
    }
    BlockSumIsNeighbours(b, x, y);
  }

  /** On a board with no live cell every count is 0. */
  lemma NeighboursAllDead(b: Cells, x: int, y: int)
    requires WellFormed(b) && forall k :: 0 <= k < |b| ==> b[k] != 1
    ensures Neighbours(b, x, y) == 0
  {
  }

  /** On a board whose every cell is live every count is 8. */
  lemma NeighboursAllAlive(b: Cells, x: int, y: int)
    requires WellFormed(b) && forall k :: 0 <= k < |b| ==> b[k] == 1
    ensures Neighbours(b, x, y) == 8
  {
  }

  /** The centre cell never counts: changing it leaves its own count unchanged. */
  lemma NeighboursExcludeCentre(b: Cells, x: int, y: int, v: int)
    requires WellFormed(b) && InBoard(x, y)
    ensures Neighbours(b[Idx(x, y) := v], x, y) == Neighbours(b, x, y)
  {
    var b' := b[Idx(x, y) := v];
    forall i, j | x - 1 <= i <= x + 1 && y - 1 <= j <= y + 1 && (i != x || j != y)
      ensures Live(b', i, j) == Live(b, i, j)
    {
      IdxIsArrIndex(x, y);
      assert ArrIndex(i, j, COLS, ROWS) != Idx(x, y);
    }
  }

  // ---------------------------------------------------------------------------
  // The rule.

  /**
    B3/S23: a live cell with fewer than 2 neighbours dies, with 2 or 3 lives
    on, with more than 3 dies; a dead cell with exactly 3 becomes live.
  */
  predicate NextState(alive: bool, n: int) {
    if alive then 2 <= n <= 3 else n == 3
  }

  /**
    What tick writes for one cell holding v with n neighbours: a cell holding
    1 is cleared when n < 2 or n > 3, any other cell is set when n == 3, and
    otherwise the cell keeps whatever it held.
  */
  function TickCell(v: int, n: int): int {
    if v == 1 then (if n < 2 || n > 3 then 0 else v)
    else if n == 3 then 1
    else v
  }

  /**
    On cells holding 0 or 1 the branches of tick implement exactly the four
    rules: the result is 1 precisely when the rule says the cell lives.
  */
  lemma TickCellIsRule(v: int, n: int)
    requires v == 0 || v == 1
    ensures TickCell(v, n) == 0 || TickCell(v, n) == 1
    ensures TickCell(v, n) == 1 <==> NextState(v == 1, n)
  {
  }

  /** The next state of cell (x, y) under B3/S23: 1 for live, 0 for dead. */
  function NextCell(b: Cells, x: int, y: int): int
    requires WellFormed(b)
  {
    if NextState(Cell(b, x, y) == 1, Neighbours(b, x, y)) then 1 else 0
  }

  /** The next generation of the whole board under B3/S23, read from b alone. */
  function NextGen(b: Cells): (r: Cells)
    requires WellFormed(b)
    ensures WellFormed(r) && Binary(r)
  {
    seq(SIZE, k => NextCell(b, ColOf(k), RowOf(k)))
  }

  /** Cell (x, y) of the next generation is live exactly when the rule says so. */
  lemma NextGenAt(b: Cells, x: int, y: int)
    requires WellFormed(b) && InBoard(x, y)
    ensures NextGen(b)[Idx(x, y)] == 1 <==> NextState(b[Idx(x, y)] == 1, Neighbours(b, x, y))
    ensures NextGen(b)[Idx(x, y)] == 0 || NextGen(b)[Idx(x, y)] == 1
  {
    var k := Idx(x, y);
    IdxRoundTrip(x, y, 0);
    assert NextGen(b)[k] == NextCell(b, x, y);
    CellWraps(b, x, y);
  }

  /** An empty board stays empty. */
  lemma NextGenDead()
    ensures NextGen(Dead()) == Dead()
  {
    forall k | 0 <= k < SIZE
      ensures NextGen(Dead())[k] == 0
    {
      NeighboursAllDead(Dead(), ColOf(k), RowOf(k));
    }
  }

  /** NextGen applied n times: the board after n ticks. */
  function Generations(b: Cells, n: nat): (r: Cells)
    requires WellFormed(b)
    ensures WellFormed(r)
    decreases n
  {
    if n == 0 then b else Generations(NextGen(b), n - 1)
  }
}
