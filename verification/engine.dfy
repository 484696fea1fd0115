/**
  The double-buffered generation step and the board clear, as the program
  performs them on its two flat arrays (the current board and the scratch
  board), refined against the pure rule engine.
*/
module Engine {
  import opened Board
  import opened Rules

  /** What tick leaves in cell (x, y) when it reads the snapshot s. */
  function TickedCell(s: Cells, x: int, y: int): int
    requires WellFormed(s) && InBoard(x, y)
  {
    TickCell(s[Idx(x, y)], Neighbours(s, x, y))
  }

  /** Cells of the current board that the loops of tick have already visited. */
  predicate Visited(x: int, y: int, i: int, j: int) {
    x < i || (x == i && y < j)
  }

  /**
    tick: copy the current board into the scratch board, then visit every
    cell column by column, counting neighbours on the scratch copy only and
    writing the rule's outcome into the current board.
  */
  method Tick(game: Cells, temp: Cells) returns (game': Cells, temp': Cells)
    requires WellFormed(game) && WellFormed(temp)
    ensures temp' == game
    ensures WellFormed(game')
    ensures forall x, y :: InBoard(x, y) ==> game'[Idx(x, y)] == TickedCell(game, x, y)
  {
    temp' := temp;
    var k := 0;
    while k < SIZE
      invariant 0 <= k <= SIZE && |temp'| == SIZE
      invariant forall m :: 0 <= m < k ==> temp'[m] == game[m]
    {
      temp' := temp'[k := game[k]];
      k := k + 1;
    }
    game' := game;
    var i := 0;
    while i < COLS
      invariant 0 <= i <= COLS && WellFormed(game')
      invariant forall x, y :: InBoard(x, y) ==>
        game'[Idx(x, y)] == if x < i then TickedCell(temp', x, y) else temp'[Idx(x, y)]
    {
      var j := 0;
      while j < ROWS
        invariant 0 <= j <= ROWS && WellFormed(game')
        invariant forall x, y :: InBoard(x, y) ==>
          game'[Idx(x, y)] == if Visited(x, y, i, j) then TickedCell(temp', x, y) else temp'[Idx(x, y)]
      {
        var count := CountNeighbors(temp', i, j);
        ghost var before := game';
        if GetArrValue(temp', i, j, COLS, ROWS) == 1 {
          if count < 2 {
            game' := game'[i + j * ROWS := 0];
          }
          if count > 3 {
            game' := game'[i + j * ROWS := 0];
          }
        } else if count == 3 {
          game' := game'[i + j * ROWS := 1];
        }
        CellWraps(temp', i, j);
        assert game'[Idx(i, j)] == TickedCell(temp', i, j);
        forall x, y | InBoard(x, y) && (x != i || y != j)
          ensures game'[Idx(x, y)] == before[Idx(x, y)]
        {
          IdxInjective(x, y, i, j);
        }
        j := j + 1;
      }
      i := i + 1;
    }
  }

  /**
    On a board of 0s and 1s tick computes exactly the next generation, and
    the result is again a board of 0s and 1s: because every count reads the
    unchanging snapshot, the column-by-column order of the writes does not
    matter.
  */
  lemma TickIsNextGen(game: Cells, game': Cells)
    requires WellFormed(game) && Binary(game) && WellFormed(game')
    requires forall x, y :: InBoard(x, y) ==> game'[Idx(x, y)] == TickedCell(game, x, y)
    ensures game' == NextGen(game)
  {
    forall k | 0 <= k < SIZE
      ensures game'[k] == NextGen(game)[k]
    {
      var x, y := ColOf(k), RowOf(k);
      IdxRoundTrip(x, y, k);
      NextGenAt(game, x, y);
      TickCellIsRule(game[k], Neighbours(game, x, y));
    }
  }

  /** tick as the program calls it: on a 0/1 board the result is NextGen of the old board. */
  method Step(game: Cells, temp: Cells) returns (game': Cells, temp': Cells)
    requires WellFormed(game) && WellFormed(temp) && Binary(game)
    ensures game' == NextGen(game) && temp' == game
  {
    game', temp' := Tick(game, temp);
    TickIsNextGen(game, game');
  }

  /** The clear on a rising ENTER: every cell of both boards becomes 0. */
  method Clear(game: Cells, temp: Cells) returns (game': Cells, temp': Cells)
    requires WellFormed(game) && WellFormed(temp)
    ensures game' == Dead() && temp' == Dead()
  {
    game', temp' := game, temp;
    var i := 0;
    while i < ROWS * COLS
      invariant 0 <= i <= SIZE && |game'| == SIZE && |temp'| == SIZE
      invariant forall m :: 0 <= m < i ==> game'[m] == 0 && temp'[m] == 0
    {
      game' := game'[i := 0];
      temp' := temp'[i := 0];
      i := i + 1;
    }
  }
}
